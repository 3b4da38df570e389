# Verification of the gate protocol, merges, parsers and renderers

A Dafny model of the parts of jumpgate whose correctness is hardest to see in one
reading, with proofs about every input and every run. `dafny verify dfyconfig.toml`
checks all of it.

- **Signed-intent admission.** `Address`, `AtomicFile`, `Replay`, `Clock`, `NonceLayer`,
  `Policy`, `Agent`, `Protocol`, `Client` and `Deliveries`. `Directory`, `Replay`, `Agent`, `Policy`,
  `Channel` and `Client` are classes whose methods change state as the source's do.
  `Protocol` interleaves the steps of many handlers with failed writes, crashes, power
  cuts and restarts; its steps taken without interruption are the method of `Agent`
  (`Protocol.HandleIsARun`), and what that does to one controller is a delivery of the
  channel its client talks over (`Deliveries`). The Keccak hash, the recovery of signers and the JSON of the
  record are uninterpreted. How a write of the record can end is what `AtomicFile` proves
  of the steps it is made of.
- **Journal paging.** `Logs`.
- **Merges.** `UpstreamMerge`, `GatewayMerge`, `ChainMerge` and `ConfigMerge` (one gateway
  per machine, on values, chain by chain, and then over slices of slices that share
  arrays), `TransportKey` (one key in
  an `authorized_keys` file), `Capabilities` (verdicts from two sources, in maps that rows
  share), `MergeTwice` and `FoldRuns` (from several runs).
- **Parsers and printers.** `KnownHosts`, `SshArgv`, `SshBuild`, `Login`, `Sse`, and the
  reconnect loop around the last in `Reconnect`.
- **Gateway routing and rendering.** `ModuleRouting`, `GatewayRoutes`, `GatewayIds`, `UpstreamTags`,
  `DistinctIds`, and `Registry`, the modules that ship.
- **Bounded text.** `Redact`, `CapLines`.
- Shared: `Wrappers`, `Word` (64-bit integers), `Decimal`, `Slices`, `Strings`, `Utf8`,
  `Newlines`, `Spaces`.

A Go string is a sequence of bytes, one character each, where bytes matter (`Utf8`,
`KnownHosts`, `SshArgv`, `Login`, `Logs`, `Redact`, `CapLines`), and a sequence of runes
where white space does (`Sse`, `TransportKey`, endpoints in `GatewayIds` and `UpstreamTags`).

Parameters stand for what the model does not look into: `Keccak`; the clock; whether a
file can be read and which step of a write fails; what the network does to an attempt
(`Weather`); case folding (`Fold`); the encoding of a journal line (`Reading`); container
names; the identity of a URL; how a URL is parsed and a letter lowered (`Reader`); which
texts are IPv6 addresses; what redaction makes of one line; how each connection of a stream
went.

## Where the code does not do what one might expect

Each is stated as a lemma with an input, or as the exact condition.

- The nonce layer alone blocks a repeat except under exactly one condition: the repeat's
  clock, or that of an acceptance in between, was past the nonce's retention
  (`NonceLayer.RepeatPassesExactly`). Two ways to meet it inside the time window: a handler
  reads its clock before it is admitted, so a later clock can be admitted first
  (`NonceLayer.OvertakingDefeatsTheNonceLayer`); and the record compares with an unclamped
  clock where the window clamps, so a clock before 1970 is past every retention
  (`NonceLayer.NegativeClockForgetsTheNonce`). Sequences still block both.
- One resynchronisation clears stale_seq for every client that has kept its counter since
  the gate's record was empty, over any number of calls (`Client.KeptCounterIsNeverStale`).
  A client that lost it, as one with a new store in memory has, can be answered stale_seq
  twice: a retry after the gate restarted is stale exactly when a failed write had left a
  higher sequence in the gate's file than it held
  (`Client.RetryIsStaleExactly`, `Client.LostCounterIsStaleTwice`). At the last 64-bit
  sequence the counter wraps (`Client.ResyncClearsUnlessExhausted`).
- Enrolling an address for local use does not narrow it exactly when the first entry the
  policy already has for it is not local and is spelt otherwise
  (`Policy.EnrolledLocalExactly`, `Policy.BareSpellingStaysOpen`).
- Merging two gateways drops an upstream whose key is already served on another chain
  (`GatewayMerge.CompetingChainIsLost`, `GatewayMerge.TwoChainsOneNode`);
  `GatewayMerge.GroupConserves` says exactly when nothing is lost.
- A second merge of a transport key changes the file exactly when it ends, without a
  newline, in two or more lines for the key, with no line for the key before those
  (`TransportKey.SecondMergeExactly`, `TransportKey.RaggedFileTakesTwoMerges`).
- The server's ssh builder lets an empty known_hosts path through, and the client's screen
  refuses the command exactly then (`SshBuild.BuiltIsAcceptedExactly`,
  `SshBuild.EmptyPathIsRefused`). No caller passes one: the list is built from the paths of
  files (`internal/config/hostkey.go:30-40`).
- A stream cut after one or two carriage returns at the start of a line, with an event
  pending, shows that event early (`Sse.PrefixesStandExactly`, `Sse.CutAfterReturn`).
- Folding probe runs that were already folded can lose a disagreement
  (`FoldRuns.RefoldExactly`, `FoldRuns.RefoldLosesASplit`). No caller does so: only raw
  probes are folded (`internal/capabilities/probe.go:230-246`).
- Merging the same probes twice can change the matrix, exactly when an unpublished
  endpoint's last probe does not absorb its earlier ones (`MergeTwice.MergeAgainExactly`,
  `MergeTwice.MergeAgainChangesARow`).
- With the modules that ship and every id left blank, rendering never answers with a
  duplicate id (`Registry.ShippedNeverDuplicates`). What a later module must avoid is a route
  named "http-N" or "ws-N": an endpoint labelled "mod" can be given the same id
  (`DistinctIds.RouteMeetsGenerated`, `DistinctIds.DuplicatesExactly`,
  `Registry.NumberedRouteClashes`).
- Redacting twice changes nothing only because the marker of dropped lines is exempt from
  the budgets and the work budget is no smaller than the output's (`Redact.Idempotent`,
  `Redact.UnexemptMarkerExactly`, `Redact.SmallerWorkBudgetBreaksIt`).
- The reconnect delay's jitter lets a later wait be the shorter one exactly once the delay is
  at its cap (`Reconnect.WaitsLengthenExactly`).

## Model

| member | source | states |
|---|---|---|
| Address.Hex | internal/eip712/address.go:32-48 | rewriting the digit buffer in place gives the checksummed text of the address, whatever the hash |
| Address.HexExactly | internal/eip712/address.go:32-48 | digit by digit: the address's own, a letter in upper case exactly when the hash's digit at that place is 8 or more |
| Address.DecodeIgnoresCase | internal/eip712/address.go:14-26 | a text decodes to some bytes exactly when its lower-case form is their encoding |
| Address.ParseAcceptsExactly | internal/eip712/address.go:14-26 | what is parsed as an address: its forty digits in any case, bare or after 0x, 0X or 0x0X, and nothing else |
| Address.HexRoundTrip | internal/eip712/address.go:14-48 | parsing the printed address gives it back, for every hash |
| Address.HexInjective | internal/eip712/address.go:32-48 | two addresses never share a text, so record entries keyed by text never meet |
| AtomicFile.Directory.WriteFile | internal/fsatomic/fsatomic.go:16-47 | whichever step fails, and whenever the power goes, the path can be read only as all of the old text or all of the new; after success only as the new, after failure as the old and, when it was the last flush that failed, as the new too |
| AtomicFile.Directory.Place | internal/fsatomic/fsatomic.go:43-68 | after the rename the path reads as the new contents, and a power cut can undo that until the directory is flushed |
| Replay.Replay.Admit | internal/agent/replay.go:71-105 | refuses a sequence not above the last and a nonce still held; otherwise the record with both added is on disk before memory changes, and a failed write leaves memory as it was |
| Replay.Replay.CopyControllers | internal/agent/replay.go:86-89 | the rebuilt map holds every controller's sequence |
| Replay.Replay.CopyLiveNonces | internal/agent/replay.go:90-94 | the rebuilt map holds exactly the nonces whose retention has not passed |
| Replay.OpenReplay | internal/agent/replay.go:48-58 | opening fails closed on a missing or unreadable record, and otherwise holds what is on disk |
| Replay.ControllersAreIndependent | internal/agent/replay.go:71-105 | an acceptance moves no other controller's sequence, because texts are injective |
| Clock.TimeChecksNeverWrap | internal/agent/agent.go:104-118 | for every 64-bit wire value and clock the lifetime, skew and expiry checks give what they give over the integers |
| Clock.WindowIsAnInterval | internal/agent/agent.go:104-118 | an intent timely at two instants is timely at all instants between |
| NonceLayer.StepRemembers | internal/agent/replay.go:80-104 | no step, failed write or restart drops a nonce before its retention passes, in memory or on disk |
| NonceLayer.NonceIsKept | internal/agent/replay.go:80-104 | over every run under a clock that does not go back, an accepted nonce is held until expiry + 60 s |
| NonceLayer.NonceHeldExactly | internal/agent/replay.go:80-104 | at any point of any run, with torn writes, restarts and clocks going any way, an accepted nonce is held exactly when the clock is not past its retention and no later acceptance in the live record was made under a clock past it |
| NonceLayer.HeldExactly | internal/agent/replay.go:80-104 | so at any point of any run and under any clock, any nonce, ever accepted or not, is held exactly when some acceptance in the live record still holds it |
| NonceLayer.AcceptedStays | internal/agent/replay.go:96-104 | an acknowledged acceptance is in every later live record and file |
| NonceLayer.RepeatPassesExactly | internal/agent/replay.go:80-95 | when a repeat within its time window gets past the nonce check: exactly when its clock, or a later acceptance's, was past the nonce's retention |
| NonceLayer.NonceBlocksRepeats | internal/agent/replay.go:80-95 | so under clocks from 1970 on that do not go back the nonce layer alone never accepts a nonce again while its intent could still pass the time checks |
| NonceLayer.RetentionIsBounded | internal/agent/replay.go:89-95 | no stored nonce is due later than the clock + 420 s |
| NonceLayer.OvertakingDefeatsTheNonceLayer | internal/agent/agent.go:102-160 | three attempts, the middle one admitted under a later clock, after which the first passes the nonce check again, by that condition |
| NonceLayer.NegativeClockForgetsTheNonce | internal/agent/replay.go:80-95 | an intent repeated under a clock before 1970 passes the nonce check again, by that condition |
| NonceLayer.NegativeClockForgetsEveryNonce | internal/agent/replay.go:80-95 | under a clock before 1970 no stored nonce blocks anything and all are pruned |
| Policy.Policy.TierOf | internal/agent/policy.go:181-188 | the tier of the first entry that spells the address, in whatever case |
| Policy.Policy.Authorise | internal/agent/policy.go:197-240 | succeeds exactly when the kind is known, the controller is an enrolled routine signer that signed, and some assignment gives every required and extra tier a signer of its own; the verdict depends on the set of signers only |
| Policy.AuthorisedExactly | internal/agent/policy.go:197-240 | said of the list by position: the kind is known, to the box or by default, the controller signed and the first entry for it is routine, and each tier required, the box's word before the default's, and each extra one has a different signer whose first entry is of that tier |
| Policy.Policy.CoverTiers | internal/agent/policy.go:209-238 | the greedy loop finds a distinct signer for each tier exactly when any assignment exists |
| Policy.NoAssignmentLeft | internal/agent/policy.go:217-238 | when every holder of the next tier is taken, no assignment exists however the earlier picks were made (pigeonhole) |
| Policy.Policy.CheckScope | internal/agent/policy.go:135-157 | an unscoped signer from any peer, a scoped one only from root or an enrolled uid |
| Policy.ScopeExactly | internal/agent/policy.go:135-157 | refused exactly when the first entry for the controller is scoped and the peer is unknown or neither root nor an enrolled uid |
| Policy.Policy.AddSigner | internal/agent/policy.go:110-118 | appends unless an entry spells the same address, changing no entry |
| Policy.Policy.NarrowScope | internal/agent/policy.go:120-130 | makes local the first entry that spells the address and is not local yet, exactly when there is one, and touches nothing else |
| Policy.EnrolmentKeepsEntries | internal/agent/policy.go:110-118 | enrolling changes no enrolled signer's tier or scope, even under a second spelling of an address |
| Policy.NarrowingOnlyNarrows | internal/agent/policy.go:120-130 | narrowing admits no one refused before and leaves every tier as it was |
| Policy.NarrowingTakesExactly | internal/agent/policy.go:120-148 | the address ends local, as the scope check reads the list, exactly when its first entry was local or is spelt as it is |
| Policy.EnrolledLocalExactly | cmd/jumpgate/cli_agent.go:225-229 | enrolling an address for local use takes exactly unless the first entry the box already has for it is not local and is spelt otherwise |
| Policy.BareSpellingStaysOpen | cmd/jumpgate/cli_agent.go:225-229 | for every address: a box that lists it without 0x, for any peer, keeps it so when it is enrolled for local use |
| Policy.HexNames | internal/eip712/address.go:14-48 | whatever is spelt like the printed form of an address, in any case, is parsed as that address |
| Policy.UpgradeNeedsAnApproval | internal/agent/policy.go:59-63 | unless the box overrides the kind, an upgrade is authorised only with an approval signer other than the controller |
| Agent.Agent.constructor | internal/agent/agent.go:75-82 | a gate starts with no claim, and with a record exactly when one can be read |
| Agent.Agent.Claim | internal/agent/agent.go:211-219 | takes the controller exactly when it is free |
| Agent.Agent.CurrentReplay | internal/agent/agent.go:202-209 | a live record is never replaced; one is read again only while none has been |
| Agent.Agent.CheckAtDoor | internal/agent/agent.go:91-147 | the first failing check, in the source's order, names the rejection; policy and scope are judged by what they mean |
| Agent.DoorExactly | internal/agent/agent.go:91-147 | reason by reason: the door gives it exactly when its own check fails and every check before it passes, the times over the integers; and no reason exactly when the intent parses, is for this gate, lives at most 300 s, is within 60 s of its window, has the payload that was signed for, signatures that recover, and is authorised and in scope |
| Agent.Agent.Consider | internal/agent/agent.go:154-167 | record, file, history and answer after the record has decided, for every verdict and every end of the write |
| Agent.Agent.Serve | internal/agent/agent.go:149-168 | the whole state and the answer from claim to release, the record being the live one or the one first read during the call; the claim is released whatever happens |
| Agent.Agent.Handle | internal/agent/agent.go:91-168 | refused at the door with nothing touched, or served: whatever is answered with more than a rejection, or changes anything, is a timely intent for this gate with the payload it was signed for, authorised and in scope, and every such intent is served; one that ran is last in the history, and in record and file under its controller's text and its nonce's until 60 s past its expiry |
| Agent.HandledExactly | internal/agent/agent.go:149-168 | past the door, answer by answer: each is given exactly when its own check fails and every one before it passes |
| Agent.RecordExactly | internal/agent/replay.go:86-104 | the record an intent that ran leaves, entry by entry: its sequence, its nonce, the other controllers, and the other nonces not past their time |
| Agent.RunsExactly | internal/agent/agent.go:149-168 | past the door an intent runs exactly when its controller is free, a record is at hand, its sequence is above the last, its nonce is not held, and the write is durable |
| Agent.HandledKeeps | internal/agent/agent.go:149-168 | a rejection runs nothing, leaves the live record alone and touches the file only if the write failed; an execution leaves the live record and the file equal, with the intent's sequence last |
| Protocol.StepKeepsClaims | internal/agent/agent.go:149-152 | at every step the busy set is exactly the controllers of handlers between claim and release, one handler each |
| Protocol.StepKeepsOneRecord | internal/agent/agent.go:202-209 | a process never has two live records |
| Protocol.SuccessorCovers | internal/agent/replay.go:86-104 | the record an admission writes covers all that ran and all that is admitted, and the new intent |
| Protocol.AdmitKeepsSafe | internal/agent/replay.go:86-104 | an admission, with any outcome of its write, keeps every record above all that was executed: the live one, the file's, and whatever a power cut may leave |
| Protocol.ExecuteKeepsSafe | internal/agent/agent.go:158-163 | running an admitted intent keeps executed sequences below every record and strictly increasing |
| Protocol.StepKeepsSafe | internal/agent/agent.go:149-168 | every step of every handler, crash, power cut, restart and torn write keeps the invariant |
| Protocol.EveryRunKeepsInv | internal/agent/agent.go:91-168 | the invariant holds after every run |
| Protocol.NothingRunsTwice | internal/agent/replay.go:67-105 | over every run each controller's executed sequences strictly increase, and no (controller, sequence) runs twice |
| Protocol.PersistedBeforeItRuns | internal/agent/replay.go:67-105 | an admitted intent that has not run is in whatever a power cut may leave of the file, above all its controller ran |
| Protocol.CapturedIntentIsStale | internal/agent/replay.go:75-79 | a copy of anything that ever ran is stale to whatever a power cut may leave of the file, and so to every later process |
| Protocol.NoClaimLeaks | internal/agent/agent.go:149-152 | when no handler is past its claim no controller is locked out |
| Protocol.HandleIsARun | internal/agent/agent.go:91-168 | after any run, the steps of one call with no other handler's in between do to record, file, claims and history exactly what the method does, and leave the other handlers alone |
| Protocol.FreshIntentRuns | internal/agent/agent.go:149-168 | after any run and whatever other handlers are doing, a timely intent whose controller is free, above the last sequence and with an unused nonce, does run |
| Client.Channel.Send | internal/agentclient/client.go:155-190 | a new request is in flight, distinct from all before it |
| Client.Channel.Deliver | internal/agent/replay.go:71-105 | a delivered request leaves the channel; what it does to the gate's sequence, its file's and the admitted set in each case, a failed write that leaves it in the file included; the gate signs one receipt for it, stale exactly when the record was asked and held as much |
| Client.Channel.Elapse | internal/agentclient/client.go:187-191 | any deliveries, restarts and writes for other controllers while one waits: the gate's sequence, if settled, stays settled, and its stale answer carries the sequence it will keep; a request above all others is not found stale |
| Client.Client.Once | internal/agentclient/client.go:155-241 | when what comes back is signed by the gate, from it, for this request, with its sequence and these result bytes, that status and result are returned and the counter moves past it; anything else is an error and leaves the counter; a settled gate stays settled for the counter |
| Client.Client.Resync | internal/agentclient/client.go:138-143 | after taking the gate's last sequence the counter is above all in flight, and ahead of the gate unless its file holds more |
| Client.Client.Send | internal/agentclient/client.go:126-146 | the loop: the first attempt's answer, unless that is the gate's stale_seq; then the counter is set past the sequence told, and a second attempt's answer is returned whatever it is |
| Client.Client.Do | internal/agentclient/client.go:110-146 | the same, and: at most one of the call's requests is ever admitted, even by late delivery; exactly one when it returns a verified answer that is no rejection; the counter never decreases; a settled gate gives no stale answer after the one resynchronisation, and is settled again for the next call |
| Client.LoneCall | internal/agentclient/client.go:126-146 | a call whose requests arrive and are answered, at a settled gate that admits what is above its sequence, returns what the gate answered, with exactly one request admitted: the second when the counter had fallen behind |
| Client.AttemptKeeps | internal/agentclient/client.go:155-241 | one attempt, as values: what may be admitted by it, what a stale answer tells, and that an attempt above all the gate could reach is not stale |
| Client.ResyncClearsUnlessExhausted | internal/agentclient/client.go:139-139 | the next sequence is above the gate's last exactly unless that is the largest 64-bit number |
| Client.Calls | internal/agentclient/client.go:126-146 | of any number of calls to a settled gate, in any weather, none returns stale_seq |
| Client.KeptCounterIsNeverStale | internal/agentclient/client.go:126-146 | so a client that has kept its counter since the gate's record was empty never returns stale_seq |
| Client.RetryIsStaleExactly | internal/agentclient/client.go:126-146 | sent, found stale, resynchronised, the gate restarted, sent again: found stale again exactly when the gate was not settled |
| Client.LostCounterIsStaleTwice | internal/server/pair.go:260-261 | a new gate that admits one request and fails to admit the next with the write done, then hears from a client with a new store: its retry is stale too |
| Deliveries.CallIsADelivery | internal/agent/agent.go:149-168 | a call at the gate moves its controller's sequences, live and in the file, and is answered stale, exactly as the one delivery that matches it |
| Deliveries.CallIsARewrite | internal/agent/replay.go:86-104 | for any other controller a call changes nothing, or puts the live sequence into the file |
| Logs.CutLine | internal/agent/logs.go:184-192 | the loop cuts where the largest rune boundary within the bound is |
| Logs.CutKeepsValidText | internal/agent/logs.go:184-192 | a cut line is a prefix within the bound, valid when the line was, and at most three bytes short of the bound |
| Logs.ReadPage | internal/agent/logs.go:160-180 | an answer carries exactly the lines of the entries it consumed that are not too old, within the byte bound or a single item, and stops only where the next line would not fit |
| Logs.LogsSince | internal/agent/logs.go:151-181 | the same of journalctl's output, always consuming at least one entry when there is one, and stopping short only at a line that would go over the byte bound |
| Logs.KeptExactly | internal/agent/logs.go:160-180 | an answer's lines are, by position and in order, the consumed entries that are due, each cut to 8192 bytes: any without a cursor, else those not older than a day |
| Logs.ResumeExactly | internal/agent/logs.go:160-180 | the next cursor is that of the last entry that has one or was passed over, and the old one if there is none |
| Logs.JournalctlExactly | internal/agent/logs.go:45-65 | the lines a call is for: the last ones, or the first after the cursor's line; as many as asked for up to 2000, and 200 unless asked |
| Logs.OnePageOn | internal/agent/logs.go:151-181 | a page read at any line's cursor continues exactly where an earlier reading stopped, and resumes at its own last line |
| Logs.ReadOn | internal/agent/logs.go:141-181 | repeated calls from any line of a journal that stands still advance, end, and together give every later line that is not too old, once, in order |
| Logs.ReadGrowing | internal/agent/logs.go:141-181 | calls from no cursor while the journal grows: after each, the answers are all of the first page and then every line up to the cursor that is not too old, once, in order; a call that does not advance found nothing newer |
| Logs.FirstAnswerSetsTheCursor | internal/agent/logs.go:151-181 | an answer without a cursor ends at a line's cursor, so reading goes on from there |
| UpstreamMerge.UniqueUpstreamId | internal/config/merge.go:185-195 | the search ends for every finite set of taken ids, and its result is not among them |
| UpstreamMerge.TryingShrinks | internal/config/merge.go:185-195 | each taken candidate tried leaves fewer untried ones, since no two suffixes give one text |
| UpstreamMerge.AddUpstreamKeeps | internal/config/merge.go:164-180 | adding one upstream moves and renames nothing in the destination, keeps distinct ids distinct, and adds exactly one (chain, key) pair unless the key is known |
| UpstreamMerge.MergeIntoGains | internal/config/merge.go:147-181 | a whole merge keeps the destination as a prefix of the result, keeps ids distinct, and gains exactly the pairs whose key is new |
| UpstreamMerge.GainsExactly | internal/config/merge.go:164-180 | of each new key the first offer is gained, and nothing else |
| UpstreamMerge.AllPairsSurviveIff | internal/config/merge.go:140-180 | every offered pair survives exactly when no key is offered on two chains |
| ChainMerge.MergeIntoExactly | internal/config/merge.go:147-181 | a merge has exactly the chains of both sides, each once if the destination lists each once, and each chain serves what it did and then what was gained for it, in the order offered |
| ChainMerge.NetworkExactly | internal/config/merge.go:158-181 | so each network of the result is the destination's own, or a new chain's, with its own upstreams first and its chain's gained ones after them |
| ChainMerge.GainingExactly | internal/config/merge.go:170-180 | what is gained is, by position, the first offer of each key that was not there, changed in nothing but the id: that one when it is free or blank, else with the least free suffix from 2 |
| ChainMerge.OfferingExactly | internal/config/merge.go:163-171 | the offers are the source's upstreams, network by network in their order |
| ChainMerge.MergeIntoTwice | internal/config/merge.go:147-181 | merging one configuration and then another is merging both at once |
| ChainMerge.GroupExactly | internal/config/merge.go:60-96 | the survivor of a group serves the chains of all its members, each once if its own were, and on each its own upstreams and then the others' new ones, member by member |
| ChainMerge.MergedListChainsOnce | internal/config/merge.go:31-100 | gateways that list every chain once are merged into gateways that do |
| GatewayMerge.TargetsList | internal/config/merge.go:32-41 | the targets are listed once each, exactly those that have a gateway |
| GatewayMerge.OneGatewayPerTarget | internal/config/merge.go:31-100 | each placed target keeps one gateway, the survivor with its own id and door; unplaced gateways pass through untouched |
| GatewayMerge.MergingIsIdempotent | internal/config/merge.go:31-100 | merging a merged list changes nothing and orphans nothing |
| GatewayMerge.OrphansOfOneTarget | internal/config/merge.go:67-95 | a merged target leaves one container per loser and one more per fronted loser |
| GatewayMerge.SurvivorExactly | internal/config/merge.go:102-118 | the first fronted member survives; with none, the first called "default"; with neither, the first |
| GatewayMerge.OrphansExactly | internal/config/merge.go:67-95 | the orphans of a target are its losers' eRPC containers, and the Caddy ones of those fronted, each naming the survivor |
| GatewayMerge.GroupConserves | internal/config/merge.go:60-96 | the survivor serves every (chain, key) pair of its group exactly when no key competes on two chains; no key is ever lost and no pair invented |
| GatewayMerge.CompetingChainIsLost | internal/config/merge.go:140-180 | a pair whose key the survivor already has on another chain is not in the result |
| GatewayMerge.TwoChainsOneNode | internal/config/merge.go:140-180 | one node on chain 1 of one gateway and chain 2 of another: chain 2 loses it |
| ConfigMerge.CloneNetworks | internal/config/merge.go:120-138 | the clone holds the same networks and shares no array with the original, nor two of its networks one with each other, at either level |
| ConfigMerge.AddUpstreamsTo | internal/config/merge.go:163-180 | appending to a network's own upstream slice, in spare capacity or not, gives what the merge on values gives, and writes to that slice's array and the networks' only |
| Slices.Append | internal/config/merge.go:163-180 | append writes the next cell where there is capacity, seen by whoever shares the array, and into a new array else; no other cell changes |
| ConfigMerge.MergeConfigInto | internal/config/merge.go:147-181 | the result is the merge of the old destination and the source; only the destination's own arrays are written, at either level |
| ConfigMerge.SurvivorIndex | internal/config/merge.go:106-118 | the first fronted member, else the first with the default id, else the first |
| ConfigMerge.FoldMembers | internal/config/merge.go:60-95 | the clone takes in every other member in order, and lists what each leaves, writing to none of the caller's arrays at either level |
| ConfigMerge.Group | internal/config/merge.go:32-41 | targets in first-seen order, and the positions of each one's members |
| ConfigMerge.MergeGatewaysPerTarget | internal/config/merge.go:31-100 | over shared slices of networks and of upstreams, with spare capacity anywhere, gives the merged gateways and orphans of the model on values and writes to no array of the input |
| TransportKey.LineHasKey | internal/bootstrap/bootstrap.go:373-381 | a line carries the key exactly when type and blob are adjacent fields |
| Spaces.FieldsExactly | internal/bootstrap/bootstrap.go:374-385 | a word after white space, ended by white space or the end, is the next field |
| TransportKey.MergeLines | internal/bootstrap/bootstrap.go:338-361 | the loop's output, whether the key was found, and that changed means the lines differ |
| TransportKey.MergeTransportKey | internal/bootstrap/bootstrap.go:329-372 | exactly one line of the merged file carries the key, and it is the options, a space and the key; the lines before it are the file's, after it come the file's other lines; with no line for it before, it follows the last line with text; changed is true exactly when the text differs from the file |
| TransportKey.OthersExactly | internal/bootstrap/bootstrap.go:338-342 | the other lines are, by position and in order, all those that do not carry the key |
| TransportKey.OneKeyLine | internal/bootstrap/bootstrap.go:329-368 | in the result exactly one line carries the key and it is the wanted one; all others are there in order, but for blank lines at the end when appending |
| TransportKey.MergedLines | internal/bootstrap/bootstrap.go:362-367 | joining and splitting again gives the merged lines, so the statements on lines are about the file |
| TransportKey.ChangedExactly | internal/bootstrap/bootstrap.go:339-367 | the text changes exactly when its lines do, and always when the key was absent |
| TransportKey.AppendedText | internal/bootstrap/bootstrap.go:364-368 | the trim-and-append text is the one the lines describe |
| TransportKey.SecondMergeExactly | internal/bootstrap/bootstrap.go:333-368 | a second merge changes nothing exactly unless the file ends, unterminated, in two or more lines for the key, with no line for the key before those; a third never does |
| TransportKey.RaggedFileTakesTwoMerges | internal/bootstrap/bootstrap.go:333-368 | for every key: the wanted line twice, the second unterminated, takes two merges |
| TransportKey.OneMergeIsEnough | internal/bootstrap/bootstrap.go:333-368 | on an empty or newline-terminated file one merge is a fixpoint |
| TransportKey.KeyIsWanted | internal/bootstrap/bootstrap.go:334-336 | the wanted line does carry the key, whatever options precede it |
| Capabilities.Clone | internal/capabilities/capabilities.go:403-414 | a copy of a row with a map of its own |
| Capabilities.MergeInto | internal/capabilities/capabilities.go:339-367 | writing the row's own map, in whatever order the probe's keys are met: local facts where reached, and each verdict from whoever has the better claim |
| Capabilities.MergeProbes | internal/capabilities/capabilities.go:322-331 | the loop over the probes: merged, one after the other, into the rows there are, the rest kept apart; only maps made for this merge are written |
| Capabilities.MergeRows | internal/capabilities/capabilities.go:316-333 | local-only rows in order, then the remote rows with their probes merged in, in new maps no two of them share; no map of the caller's is written, even where its rows share them |
| Capabilities.MergeKeys | internal/capabilities/capabilities.go:372-401 | published columns first, then known ones that are present, then the rest sorted |
| Capabilities.ColumnsCover | internal/capabilities/capabilities.go:369-401 | the published columns are a prefix, every verdict has a column, and no column is added that nothing has |
| Capabilities.KnownInOrder | internal/capabilities/capabilities.go:386-391 | the known columns come in this build's order, each once |
| Capabilities.ColumnsAreSettled | internal/capabilities/capabilities.go:380-400 | the columns do not depend on the order map keys are met in |
| Capabilities.Merge | internal/capabilities/capabilities.go:306-335 | the merged matrix: rows, columns, and the remote's other fields unchanged; what the caller handed over is as it was |
| MergeTwice.RowAfterMerge | internal/capabilities/capabilities.go:316-333 | every endpoint's row afterwards: the published one with its probes merged on in order, or its last probe |
| MergeTwice.RowOrder | internal/capabilities/capabilities.go:313-333 | first the probes of endpoints that no remote row is for, all of them and in order, then the remote rows, each in its place |
| MergeTwice.WhoseVerdict | internal/capabilities/capabilities.go:289-302 | whose verdict and reachability a published row ends with, however often it was probed: of the last probe that reached it and answered, else the row's own, else the first of any |
| MergeTwice.RowsAgainExactly | internal/capabilities/capabilities.go:306-333 | merging the same probes again leaves every row exactly when of each endpoint that is not published the last probe absorbs the earlier ones: reached if one did, named if one is, answering all that they do |
| MergeTwice.MergeAgainExactly | internal/capabilities/capabilities.go:306-335 | the same of the whole matrix, columns included |
| MergeTwice.FoldOntoAgain | internal/capabilities/capabilities.go:324-332 | probes already merged into a row change it no further |
| MergeTwice.PublishedMergesAgain | internal/capabilities/capabilities.go:324-332 | so probing published endpoints, however often, merges again without change |
| MergeTwice.MergeAgainChangesARow | internal/capabilities/capabilities.go:324-332 | two probes of an unpublished endpoint for which a second merge changes the row |
| FoldRuns.FoldCapability | internal/capabilities/probe.go:307-361 | over the runs as they stand: with one for and one against, a disagreement under the method of the first for, with the number of each kind; else the verdict of the first run with evidence, or without any of the first that answered |
| FoldRuns.StatusOfRuns | internal/capabilities/probe.go:307-361 | of raw runs, inconsistent exactly when one supported and another did not; else what those with evidence said |
| FoldRuns.RunsInAnyOrder | internal/capabilities/probe.go:307-361 | the status is the same in every order of the runs |
| FoldRuns.RunsInParts | internal/capabilities/probe.go:307-361 | and the join of the parts' statuses however the runs are divided |
| FoldRuns.FoldReports | internal/capabilities/probe.go:301-361 | agreement is one run's own verdict unchanged; a split is inconsistent, with counts that add up to the runs that answered |
| FoldRuns.FoldIsJoin | internal/capabilities/probe.go:307-361 | on raw runs, folding all gives the join of what the parts fold to |
| FoldRuns.JoinIsSemilattice | internal/capabilities/probe.go:301-306 | the join is idempotent, commutative and associative, with inconclusive least and inconsistent greatest |
| FoldRuns.OrderDoesNotMatter | internal/capabilities/probe.go:307-361 | the folded status of raw runs is the same in every order |
| FoldRuns.RefoldExactly | internal/capabilities/probe.go:313-327 | when folding any number of verdicts, themselves perhaps folded, gives their join: none of them a disagreement, or both sides there to disagree again, or nothing but verdicts without evidence of which a disagreement is the first |
| FoldRuns.RefoldLosesASplit | internal/capabilities/probe.go:313-327 | three runs that split are supported once two of them were folded first |
| FoldRuns.Runs | internal/capabilities/probe.go:260-299 | reachability from the last run that reached; every key some run answered and no other, each with what the runs amount to |
| KnownHosts.CheckKnownHostsPath | internal/api/sshargv.go:235-248 | accepts exactly the paths with no quote and no backslash the splitter would take for an escape |
| KnownHosts.CheckKnownHostsList | internal/api/sshargv.go:177-218 | the loop accepts exactly the lists that parse |
| KnownHosts.AcceptedExactly | internal/api/sshargv.go:173-218 | the lists accepted are exactly the listings of acceptable files, each of one sequence of files only |
| KnownHosts.ParsedIsPlain | internal/api/sshargv.go:177-218 | every path of an accepted list is no option and no home, holds nothing that is expanded or quotes, and stands in quotes if it has a space |
| KnownHosts.SshReadsWhatWasChecked | internal/api/sshargv.go:220-234 | on every accepted list the splitter described there yields the very paths checked: none split, joined or altered |
| SshArgv.ArgvReader.Flag | internal/api/sshargv.go:129-135 | advances exactly when the next token is the one wanted |
| SshArgv.ArgvReader.Next | internal/api/sshargv.go:137-143 | the next token, or an error at the end |
| SshArgv.ArgvReader.Option | internal/api/sshargv.go:146-158 | advances over the flag and exactly the wanted value |
| SshArgv.CheckSSHArgv | internal/api/sshargv.go:36-115 | succeeds exactly on the token sequences the reader's positions describe |
| SshArgv.AcceptedExactly | internal/api/sshargv.go:22-115 | the commands accepted are exactly those printed from the documented shape with valid fields, and each is one command only |
| SshArgv.AcceptedIsPlain | internal/api/sshargv.go:22-115 | every accepted command checks the host key strictly, jumps through nothing, and ends in one plain destination that is no option |
| SshArgv.BaseExactly | internal/api/sshargv.go:45-52 | the program is known by what follows the last separator of its path |
| SshBuild.BuildFiles | internal/server/sshcmd.go:55-70 | refuses a path ssh would reinterpret, and quotes one with a space |
| SshBuild.Build | internal/server/sshcmd.go:27-81 | builds exactly for a valid address without a jump, and then the printed command for it |
| SshBuild.BuiltIsAcceptedExactly | internal/server/sshcmd.go:27-81 | what is built passes the client's screen exactly when no known_hosts path is empty, and then ssh reads those paths |
| SshBuild.EmptyPathIsRefused | internal/server/sshcmd.go:55-70 | a command built for one empty path is refused |
| SshBuild.BuildsWhatIsAccepted | internal/server/sshcmd.go:27-81 | every command the screen accepts from "ssh", quoted where there is a space, is built from some address |
| Login.LoginsExactly | internal/api/address.go:17-79 | the logins accepted are exactly the plain views typed as user@host[:port], IPv6 in brackets, each in one way |
| Login.AddressRoundTrip | internal/api/targets.go:36-46 | the address shown for a parsed login parses back to it, with port 22 for none |
| Login.JumpAddressIsNoLogin | internal/api/targets.go:43-45 | an address through a jump host never parses as a login |
| Login.LoginReachesScreen | internal/api/address.go:10-16 | every login accepted, printed as an ssh command, passes the screen, provided IPv6 texts are at most 253 bytes |
| Sse.ParseSSE | internal/apiclient/stream.go:31-58 | the events of the text's lines |
| Sse.ParseExactly | internal/apiclient/stream.go:31-58 | an event for each blank line after lines with data: named by the last line that names it, its data lines joined, one leading space dropped from each |
| Sse.LinesConcat | internal/apiclient/stream.go:31-37 | text after a newline adds its own lines and changes none before it |
| Sse.CommentsAreSkipped | internal/apiclient/stream.go:46-46 | a comment line put between any two lines changes nothing |
| Sse.ParseOfPrint | internal/apiclient/stream.go:30-58 | events with trimmed names and data lines not ending in a carriage return, written down, parse back |
| Sse.CutParses | internal/apiclient/stream.go:28-58 | a cut stream gives the events that were whole, and the pending one only when the cut was premature |
| Sse.PrefixesStandExactly | internal/apiclient/stream.go:28-58 | what is parsed of a beginning stands however the stream goes on, exactly unless an event was pending and the unfinished line is one or two carriage returns |
| Sse.CutAfterReturn | internal/apiclient/stream.go:28-58 | for every data line: cut after a carriage return that follows it, the stream parses to an event that is gone once the line goes on |
| Reconnect.Stream | internal/apiclient/stream.go:138-194 | the messages of the loop, connection by connection |
| Reconnect.StreamExactly | internal/apiclient/stream.go:138-194 | of each connection, from the connections alone: which try it was, counted since the last long one; that it went live; then nothing if a new token was taken for a 401, one between two times live; failed for any other client error but 408 and 429; and otherwise that it will be tried again |
| Reconnect.NeverSpins | internal/apiclient/stream.go:150-194 | connections never exceed waits plus times live plus two, whatever the server does; a failure is the last message |
| Reconnect.SecondRefusalIsFinal | internal/apiclient/stream.go:166-175 | two 401s in a row with nothing live between end the stream for good |
| Reconnect.BackoffIsBounded | internal/apiclient/stream.go:105-116 | before jitter delays never shorten as attempts go on, and a wait stays between 200 ms and 9.6 s |
| Reconnect.WaitsLengthenExactly | internal/apiclient/stream.go:105-116 | a later wait is longer than an earlier one whatever the jitter of either, exactly until the delay has reached its cap |
| ModuleRouting.ModuleIgnoreMethods | internal/catalog/modules_gateway.go:91-115 | the list of one upstream, module by module |
| ModuleRouting.ExposureExactly | internal/catalog/modules_gateway.go:117-126 | a node's setting for a module is its first entry for it, and none without one |
| ModuleRouting.ApplyModuleIgnores | internal/catalog/modules_gateway.go:137-172 | sets every upstream's list and nothing else |
| ModuleRouting.IgnoresCloseExactly | internal/catalog/modules_gateway.go:79-172 | an upstream's list closes exactly what the node modules kept on the chain close there |
| ModuleRouting.ServedExactly | internal/catalog/modules_gateway.go:79-172 | whether a node module's method is served depends on that module's settings alone |
| ModuleRouting.ExposureByClass | internal/catalog/modules_gateway.go:79-115 | streams are never served; at the public tier unbounded reads never, writes only under "post", reads under "read" or "post"; elsewhere exactly on the nodes that have the module |
| ModuleRouting.OtherMethodsUntouched | internal/catalog/modules_gateway.go:137-172 | a method outside every node module's namespace stays served by every upstream |
| ModuleRouting.NoModulesNoLists | internal/catalog/modules_gateway.go:130-136 | with no module anywhere, every list is empty |
| GatewayRoutes.GatewayModuleUpstreams | internal/catalog/modules_gateway.go:178-206 | one extra upstream per applicable route, and each routed method once |
| GatewayRoutes.RoutesExactly | internal/catalog/modules_gateway.go:178-206 | a route is added on a chain exactly when a module that is on, the first of its name, is for gateways, supports the chain, needs no client, and lists the route there |
| GatewayRoutes.RouteServesItsMethodsOnly | internal/catalog/modules_gateway.go:187-197 | a route serves what it lists and nothing else |
| GatewayRoutes.WhoServes | internal/catalog/gateway.go:434-447 | on a rendered chain a route serves its methods, and any other upstream what it did before less what is routed |
| GatewayRoutes.ServingExactly | internal/catalog/gateway.go:434-447 | with node and gateway modules both applied, exactly which upstream serves which method |
| GatewayRoutes.OrdinaryMethodsUnaffected | internal/catalog/gateway.go:434-447 | a method neither routed nor a module's goes to all the original upstreams and no route |
| GatewayRoutes.StreamsNeedARoute | internal/catalog/modules_gateway.go:79-206 | a module's stream method is served, if at all, only by a route that lists it |
| GatewayIds.ValidateModules | internal/catalog/modules_gateway.go:209-236 | accepts exactly gateway modules of the registry with a chain to apply to, each on once; else the first that is not says what is wrong with it |
| GatewayIds.MisfitExactly | internal/catalog/modules_gateway.go:217-234 | what is wrong with a module, reason by reason: none of that name, the first of that name not for gateways, or for none of the chains |
| GatewayIds.RenderGateway | internal/catalog/gateway.go:376-480 | succeeds exactly when there are networks, the modules fit and the networks can be rendered, and then gives the rows; answers with a duplicate id exactly when the modules fit and some network, the first that cannot be rendered, clashes |
| GatewayIds.Render | internal/catalog/gateway.go:406-480 | the loop succeeds exactly when chains are positive and distinct, endpoints dialable and ids new; answers with a duplicate id exactly when the first network that fails does so by an id already there, before any endpoint that cannot be dialled |
| GatewayIds.RenderRows | internal/catalog/gateway.go:449-480 | the inner loop succeeds exactly when every endpoint is dialable and every id is new, and answers with a duplicate id exactly when one is met before an endpoint that cannot be dialled |
| GatewayIds.UpstreamRow | internal/catalog/gateway.go:449-480 | a configured upstream's row, field by field: its trimmed endpoint, its id or a generated one, a fallback exactly when it is not local and some other is, and ignoring what it did and every routed method |
| GatewayIds.RouteRow | internal/catalog/modules_gateway.go:187-197 | a route's row, after those: its own id and endpoint, all methods ignored but its own |
| GatewayIds.RowsInOrder | internal/catalog/gateway.go:409-480 | all rows are the networks' rows in their order |
| GatewayIds.NetworkOkExactly | internal/catalog/gateway.go:418-457 | a network is fit exactly when it has an upstream and every endpoint, its routes' too, can be dialled |
| GatewayIds.SucceedsExactly | internal/catalog/gateway.go:406-480 | networks can be rendered exactly when each can by itself, on a chain of its own, and no id is a duplicate |
| GatewayIds.RenderableExactly | internal/catalog/gateway.go:406-480 | network by network or all at once, the same demands: positive distinct chains, fit networks, ids all different |
| GatewayIds.FreshExactly | internal/catalog/gateway.go:462-467 | rows pass the duplicate check exactly when no two carry one id and none carries one seen |
| GatewayIds.SomeoneServesFirst | internal/catalog/gateway.go:423-474 | on every chain some configured upstream is no fallback, and no route is one |
| UpstreamTags.RegistrableLabel | internal/catalog/gateway.go:551-596 | the loops find the label before the last of a host, its letters and digits in lower case, and give nothing or a name that is not digits alone |
| UpstreamTags.LabelExactly | internal/catalog/gateway.go:568-596 | of any host that ends in two parts after a dot, the label is the first of the two, in letters and digits, unless it is digits alone |
| UpstreamTags.TagExactly | internal/catalog/gateway.go:538-566 | "local" for an endpoint of this machine, else the label of its host or "rpc", and "ws" exactly for the schemes over web sockets |
| UpstreamTags.WhoNames | internal/catalog/gateway.go:551-596 | however a URL is read, the tag starts with a name of letters and digits, not of digits alone |
| DistinctIds.GeneratedDetermines | internal/catalog/gateway.go:534-536 | a generated id tells its chain and position, whatever the tags |
| DistinctIds.RouteTakesExactly | internal/catalog/modules_gateway.go:187-190 | a route's id is an upstream's generated one exactly when the chains agree, the upstream is labelled "mod", and the route is named after its protocol and position |
| DistinctIds.RouteMeetsGenerated | internal/catalog/modules_gateway.go:187-190 | some endpoint's generated id equals a route's exactly when the chains agree and the route is named "http-N" or "ws-N", given a reading of URLs under which endpoints labelled "mod" exist |
| DistinctIds.ModHostIsMod | internal/catalog/gateway.go:551-596 | an endpoint at a.mod.io is one, whatever its scheme |
| DistinctIds.DuplicatesExactly | internal/catalog/gateway.go:406-467 | with every id left blank, rendering answers with a duplicate id exactly when, at the first network it cannot render and before any endpoint it cannot dial, a route shares the name of one before it or takes the id of an upstream labelled "mod" |
| DistinctIds.BlankNamesNeverClash | internal/catalog/gateway.go:458-467 | so with every id left blank and no two routes of a chain named alike, nor one "http-N" or "ws-N", no duplicate id is ever answered |
| Registry.ShippedNeverDuplicates | internal/catalog/module_privatesend.go:14-32 | with the modules that ship and every id left blank, rendering never answers with a duplicate id |
| Registry.RenderShipped | internal/catalog/gateway.go:376-480 | so it succeeds exactly when there are networks, the modules fit, and each network can be rendered by itself on a chain of its own |
| Registry.NumberedRouteClashes | internal/catalog/modules_gateway.go:187-190 | a registry with a route named "http-1" instead, and one endpoint at a.mod.io: rendering answers with a duplicate id |
| Registry.ShippedIsWellFormed | internal/catalog/module_msgboard.go:7-27 | the modules that ship have namespaces of their own, with their methods inside |
| Redact.HardCutLine | internal/ai/redact.go:256-272 | the loops cut at the rune boundary and drop the run of token bytes before it |
| Redact.HardCutExactly | internal/ai/redact.go:256-272 | the cut is at the last rune boundary in reach when fewer than eight token bytes end there, else before all the token bytes that do |
| Redact.HardCutLeavesNoKey | internal/ai/redact.go:252-272 | a cut leaves fewer than eight token bytes before it, and valid text valid |
| Redact.ClipLine | internal/ai/redact.go:276-288 | the loop cuts at the rune boundary, then at the last space near it |
| Redact.ClipIsClean | internal/ai/redact.go:274-288 | a clipped line keeps valid text valid and ends at the last space among the last 64 bytes it could keep |
| Redact.RedactLines | internal/ai/redact.go:137-213 | the budget loop, for any redaction of one line |
| Redact.OmittedExactly | internal/ai/redact.go:231-231 | the marker's pattern matches exactly the markers with any digits |
| Redact.RedactedFits | internal/ai/redact.go:140-224 | at most 2000 lines of at most 4096 bytes, within the output budget up to the last line that is no marker, within the work budget for what was read, and lines kept plus lines reported add up |
| Redact.KeptExactly | internal/ai/redact.go:140-213 | the kept lines are all, or the first 1999 of more than 2000, up to the first that goes over the work budget when read or the output budget when redacted; the marker counts the others |
| Redact.KeptAreTheFirst | internal/ai/redact.go:144-208 | what is kept are the first lines, each cut, redacted in order and clipped |
| Redact.Idempotent | internal/ai/redact.go:69-70 | a second pass is the identity when redaction fixes its own lines and the work budget is no smaller than the output's |
| Redact.SmallerWorkBudgetBreaksIt | internal/ai/redact.go:217-224 | with a smaller work budget, a line that redaction lengthens is kept once and dropped the next time |
| Redact.UnexemptMarkerExactly | internal/ai/redact.go:155-159 | were a marker not exempt and without room, a second pass would replace it, and leave the text as it was exactly when it reported one line |
| Redact.ExemptionIsNeeded | internal/ai/redact.go:155-159 | two dropped lines come back as one where markers are not exempt |
| CapLines.RuneStartAtOrBefore | internal/ai/ai.go:123-128 | the largest cut at or before that splits no rune |
| CapLines.RuneStartAtOrAfter | internal/ai/ai.go:132-137 | the smallest cut at or after that splits no rune |
| CapLines.TruncateMiddle | internal/ai/ai.go:107-119 | within the limit; the text itself, or a prefix and a suffix around the marker; valid text stays valid and at most six bytes go unused |
| CapLines.Cap | internal/ai/ai.go:81-105 | the longest run of newest lines within 80 lines and 8 KiB, or, when the newest alone is over, that one cut in the middle and, if valid, at most seven bytes short of 8 KiB; never empty for some input; valid text stays valid |
| Utf8.CutsAreValid | internal/ai/ai.go:121-137 | cutting valid text where those functions say leaves valid text, at most three bytes short |

## Left out

- HTTP, ssh, sockets, systemd, file modes, JSON and the regular expressions of redaction: inputs and outputs of the model.
- Signing, recovery and hashing: uninterpreted. In `Client` a request stands for its hash, so collisions of the hash are not modelled.
- The dispatch of an admitted intent, the upgrade lock and the tier of a question in a job decision: nothing about admission depends on them.
- Resetting the replay record by hand, which breaks its invariant on purpose.
- Agent.Agent.Handle: one call at a time; interleaved calls are the subject of `Protocol`.
- AtomicFile.Directory.WriteFile: the temporary name a failed write may leave is not modelled, nor Windows, where the directory is not flushed; a rename either happens or does not.
- NonceLayer.RepeatPassesExactly: a restart reads the file as it is; a power cut that undoes a failed write's rename is in `Protocol` only.
- Client.Client.Do: assumes two sequences of headroom below the last 64-bit number, one client per key, and a channel that delivers a request at most once; the gate may restart but a power cut that undoes a failed write is in `Protocol` only.
- Policy.EnrolledLocalExactly: case folding is a parameter, assumed to take no other address's text for the enrolled one; `Policy.HexNames` shows that of ASCII.
- ConfigMerge.MergeGatewaysPerTarget: the fields of a gateway and of an upstream are values; slices start at the first cell of their array.
- Logs.ReadOn: assumes every journal line has a cursor of its own; the shell command around journalctl is not modelled.
- Logs.ReadGrowing: under one clock; lines the journal itself drops between calls are not modelled.
- SshArgv.CheckSSHArgv: the base name of the program is taken at '/', as on Unix.
- KnownHosts.SshReadsWhatWasChecked: follows the splitter as the source describes it, which says nothing of comments.
- Login.LoginsExactly: which texts are IPv6 addresses is a parameter.
- Sse.ParseSSE: the limit of 8 MiB on one line is not modelled, and text is runes, so invalid UTF-8 in a name is not.
- Reconnect.WaitsLengthenExactly: over the reals, without the rounding to nanoseconds.
- GatewayIds.RenderGateway: its TLS settings, its ports and the template that prints the rows are not modelled.
- UpstreamTags.RegistrableLabel: how a URL is parsed and what a letter's lower case is are parameters.
- DistinctIds.DuplicatesExactly: for gateways all of whose upstreams leave their id blank; with ids given by hand the demand is `GatewayIds.FreshExactly`.
- ModuleRouting.IgnoresCloseExactly: assumes node modules have namespaces of their own, none within another's, and methods inside them, which `Registry.ShippedIsWellFormed` shows of those that ship; the tier is an input.
- Redact.Idempotent: assumes redaction leaves each line of its own output as it is, in that output's order.
- FoldRuns.FoldIsJoin: of the statuses one probe gives; verdicts already folded are the subject of `FoldRuns.RefoldExactly`.
- Capabilities.Clone: the flag for a matching chain is a value, as nothing writes where it is kept.
- FoldRuns.Runs: maps of verdicts are values; the source makes a new one and writes no other.
- Jobs, vault, relay, catalogue data, hint tables, the command line and the user interfaces: no hard property.
