# Proofs about the rotating proxy

The repository is a local forward proxy that spreads its clients' connections over a pool of upstream
proxies. This project models the parts where its behaviour is hardest to see by reading, and proves what
they promise.

**The pool** (`SelectionBag`, `FailureRecord`, `PoolStates`, `PoolRuns`, `PoolRestart`, `LockGaps`,
`ProxyNodes`, `ProxyPool`). A request draws proxies from a shuffled bag without replacement; failures put a proxy into
cooldown, repeated cooldowns disable it, and failed rechecks retire it for good; a merge adds what is new;
the state file carries the pool across restarts. The class `ProxyPool` updates the pool, the bag and the
state file in place, one operation at a time, and each method is tied to a function on the pool's value
(`View`). The invariants, the bounds and the restart laws are proved about those functions over whole runs.

**The pool's locks** (`LockMachine`). The same operations as sequences of lock steps, taken by any number of
threads in any order, with and without writer preference. No schedule deadlocks; all schedules of the same calls, each call with its draws, lengths and verdicts
fixed, end after the same number of steps; and every index drawn from the bag is inside the pool it is used
for, late and stale resets included. `LockGaps` says what other operations may do between two locks of one
report.

**Worklists** (`ContentQueue`, `HealthWorkers`, `GenerationBatches`). Subscription files expanded
breadth-first; health workers that share one queue and stop early when the machine runs out of file
descriptors; batches that halve when ports cannot be reserved.

**Bytes** (`Text`, `Utf8`, `Targets`, `HttpRequests`, `Socks5`, `XPlus`). The HTTP request rewrite, and the
outbound handshakes against the inbound readers of the same program, down to single bytes, with UTF-8,
decimal numbers and IPv4 literals worked out.

## What the proofs found

- Retiring a key that is no longer active is not written to the state file by the non-deferred
  `report_disabled_recheck_failure`: `remove_and_retire` returns before it saves. `PoolRuns.FileStaysInSync`
  says this is the only operation that leaves the file behind, and `PoolRuns.RetirementNotSaved` runs into it
  from an empty pool. The health workers do not reach it: they defer their saves and flush at the end of each
  round (src/health.rs:415, 427, 482), which writes the retired set.
- A Shadowsocks server given as an IPv6 socket address comes back from the state file as a domain name, and
  so under another key (`ProxyNodes.Ipv6ShadowsocksKeyChanges`); `PoolRestart.RestartKeepsKeys` gives the
  exact condition for a faithful restart. Every server that the program builds itself carries a domain name
  (src/parser.rs:491, 1142; src/proxy.rs:1300), so such a node can only come from code that uses the
  crate's public types. Pools of the program's own nodes restart faithfully (`PoolRestart.OwnNodesReturn`),
  given that settings and sources that built once build the same again.
- The two views of who is disabled can come apart between the two locks of a report; with operations run one
  at a time they always agree (`PoolRuns.ApplyValid`). For each report one lemma says exactly which single
  operation in between does it:
  - `report_failure` (`LockGaps.AgreementBetweenLocks`): a success or a successful recheck of the key while it
    is active, a failed recheck of the key, active or not, a replacement that contains the key, and a merge
    that adds the key while it is listed with a non-zero recheck count. Harm can also take two operations of
    which neither does any alone (`LockGaps.HarmInTwoSteps`: a stale success, or an empty replacement, and
    then a merge that brings the key back). If the key is active, or not listed with failed rechecks,
    any operations but replacements and verdicts on the key are safe, in any number
    (`LockGaps.AgreementKept`).
  - `report_success` and a successful recheck (`LockGaps.SuccessBetweenLocks`): a merge that adds the key
    while it is listed, and, where the first failure already disables, a failure report.
  - a failed recheck that leaves the key disabled (`LockGaps.FailedRecheckBetweenLocks`): a success of the key
    while it is active, another failed recheck unless it is the third, a replacement that contains the key,
    and a merge that adds it.
  - the third failed recheck: nothing in its first gap (`LockGaps.FirstGapHarmless`), and in its second what
    does harm to a success (`LockGaps.ThirdRecheckBetweenLocks`). A success that comes in either gap is too
    late to keep the key (`LockGaps.LateSuccessRetires`).

  Reports on different keys that are between their locks at the same time do not concern each other: what is
  harmless is decided for each key alone (`LockGaps.ManyPending`).
- HTTP and SOCKS nodes that differ only in having no password or an empty one, or no server name or an empty
  one, share a key, and one of them is dropped by a merge (`ProxyNodes.KeysShared`).
- The XPlus packet of an empty payload is taken for noise by the decoder (`XPlus.DecodeUndoesEncode`).
- Not every target address that the SOCKS5 side accepts survives being shown and parsed again: hosts that
  start with a blank or a bracket, or that hold a colon without being an IP literal, do not
  (`Targets.ShownTargetParses`; that the reader takes them is `Socks5.NamesTaken`). Of those that do, hosts
  with blanks inside do not survive a CONNECT request (`HttpRequests.ConnectRoundTrip`).
- Bytes that arrive in the same read as a CONNECT header block are dropped (`HttpRequests.LateBytes`).
- An absolute-form request is forwarded with its own Host header, so that parsing it again can lead
  elsewhere; it does not exactly if the Host header names the URL's target
  (`HttpRequests.AbsoluteFormFixedPoint`).

## Assumptions

Libraries and the outside world enter as parameters. `ProxyNodes.Library` decides which texts are IPv6
addresses and how Shadowsocks settings and complex proxies are rebuilt. `Targets.Lawful` says that printed
IPv6 addresses read back and consist of colons, dots and hexadecimal digits. `ContentQueue.Base64Law` says
that base64 text decodes to at most three quarters of its length (RFC 4648 section 4).
`HttpRequests.LawfulUrls` says that the path and query of a URL are one word that is not itself an absolute
URL, and `HttpRequests.LawfulBase64` that encoded credentials hold no blanks. Digests, downloads, probe
results, port reservations, salts and the clock are arbitrary. A cipher is the text it is printed as
(src/proxy.rs:1297, 1348), so saved states are taken to hold printed names.

## Model

| member | source | states |
|---|---|---|
| SelectionBags.SelectionBag.Reset | src/proxy.rs:493-496 | the bag is empty and belongs to the given generation |
| SelectionBags.SelectionBag.Next | src/proxy.rs:498-511 | nothing is drawn exactly for an empty pool; a stale or empty bag starts a new round over all indices, any other gives up one of its own |
| SelectionBags.NextIndexSafe | src/proxy.rs:498-511 | every draw from a valid bag is inside the pool, is not offered again in its round, and leaves a valid bag |
| SelectionBags.RoundConserved | src/proxy.rs:498-511 | within a round the draws so far plus what remains are exactly what remained at its start |
| SelectionBags.FullRound | src/proxy.rs:498-511 | the draws of one full round are a permutation of the pool's indices |
| SelectionBags.NoStarvation | src/proxy.rs:492-511 | every index occurs in any 2*len-1 consecutive draws without a reset or a pool change |
| FailureRecords.FailedAccounted | src/proxy.rs:836-876 | one report keeps the account of reports against cooldowns balanced, or disables the record within the bounds |
| FailureRecords.SettledAccounted | src/proxy.rs:1042-1048 | forgetting an expired cooldown wastes at most threshold-1 reports |
| FailureRecords.DisablingReportBounds | src/proxy.rs:820-882 | the report that disables a key is at least its (T*D)-th and at most its (T*D + (T-1)*(D-1))-th, for every timing of reports and scans |
| FailureRecords.ReportCountDecides | src/proxy.rs:820-882 | fewer reports than T*D never disable a key; the upper number always has |
| FailureRecords.ScheduleRuns | src/proxy.rs:836-876 | a schedule that wastes reports inside every cooldown ends in the last cooldown's disable |
| FailureRecords.BoundsAreAttained | src/proxy.rs:836-876 | both bounds are met exactly by some run whose clock never goes backwards, so neither can be improved |
| FailureRecords.CooldownEnds | src/proxy.rs:840-876 | for every record: a report begins a cooldown exactly if it meets the threshold, the cooldown then ends its full length later even if one was running, and any other report leaves a running cooldown alone |
| FailureRecords.HeldBackExactly | src/proxy.rs:1014-1049 | by a clock that never runs backwards a key is passed over at a time exactly while it is disabled or less than a cooldown's length has gone by since a report began a cooldown |
| FailureRecords.FewReportsNeverHold | src/proxy.rs:836-876 | with fewer reports than the threshold no time finds the key passed over, and the report that meets it begins a cooldown |
| ProxyNodes.RestoredKey | src/proxy.rs:1243-1363 | a saved node comes back under its own key exactly if it is not a Shadowsocks server with an IPv6 socket address and the library rebuilds it under the same key |
| ProxyNodes.RestoredPersists | src/proxy.rs:1255-1363 | saving a restored node gives the saved form it came from |
| ProxyNodes.Ipv6ShadowsocksKeyChanges | src/proxy.rs:1288-1308 | a concrete node whose key changes across a restart |
| ProxyNodes.KeysShared | src/proxy.rs:183-241 | HTTP and SOCKS nodes whose parts are free of the key's separators share a key exactly if they agree in scheme, address, login, and for HTTPS in server name and certificate check |
| PoolStates.MergeIsFilter | src/proxy.rs:677-703 | the merge loop with its growing set of known keys selects exactly the first occurrence of each new, non-retired key, in order |
| PoolStates.MergeConserves | src/proxy.rs:677-703 | added, already known and retired entries add up to the input |
| PoolStates.SkippedPositions | src/proxy.rs:677-688 | each counter of a merge is the number of its own positions: retired ones, and ones that are not but are known or came earlier |
| PoolStates.MergeRefinesFilter | src/proxy.rs:663-719 | a merge keeps the old entries as a prefix, appends the filtered new ones, reports exact counts, and keeps keys distinct |
| PoolStates.MergeTwice | src/proxy.rs:663-719 | merging the same input again adds and changes nothing |
| PoolRuns.ApplyValid | src/proxy.rs:639-958 | every completed operation, stale choices included, keeps the pool valid: entries carry their own keys, no active key is retired, and the failure records and the saved list agree on who is disabled and with which recheck count |
| PoolRuns.ApplyDistinct | src/proxy.rs:639-719 | keys stay distinct under every operation but a replacement by nodes with clashing keys |
| PoolRuns.RunDistinct | src/proxy.rs:550-958 | keys stay distinct over every run, restarts included, whose replacements bring no clashing keys |
| PoolRuns.SuccessRestores | src/proxy.rs:787-818 | a success or a successful recheck leaves an active key unblocked at every time and unlisted, and touches no other key |
| PoolRuns.StartValid | src/proxy.rs:550-629 | a pool built from any saved state and any nodes is valid and has distinct keys |
| LockGaps.AgreementBetweenLocks | src/proxy.rs:842-851 | the two halves of a disabling report make the whole, and one operation between them keeps the views agreeing exactly if it is harmless, for every operation and any key |
| LockGaps.ListingExactly | src/proxy.rs:842-952 | the same for every later operation while an entry is still to be listed with some count |
| LockGaps.UnlistingExactly | src/proxy.rs:803-911 | while an entry is still to be taken off the list, an operation keeps the coming agreement exactly if it does not disable the key once more |
| LockGaps.AgreementSurvives | src/proxy.rs:842-851 | any number of operations that are harmless in the state where they come leave the views agreeing |
| LockGaps.AgreementKept | src/proxy.rs:842-851 | a condition on the pool before the report under which any number of operations are safe that are neither replacements nor verdicts on the key |
| LockGaps.HarmInTwoSteps | src/proxy.rs:842-851 | two operations, each harmless alone, that leave an active key listed without a record |
| LockGaps.AgreementLostBetweenLocks | src/proxy.rs:842-911 | the smallest harm: a successful recheck between the halves leaves an active key listed as disabled without a record |
| LockGaps.SuccessBetweenLocks | src/proxy.rs:803-806 | the two halves of a success make the whole, and one operation between them keeps the views agreeing exactly if it does not disable the key once more |
| LockGaps.FailedRecheckBetweenLocks | src/proxy.rs:930-952 | the same for a failed recheck that leaves the key disabled, with its own exact condition |
| LockGaps.FirstGapHarmless | src/proxy.rs:930-944 | no operation between counting the third failed recheck and dropping the record harms the agreement |
| LockGaps.ThirdRecheckBetweenLocks | src/proxy.rs:941-946 | the steps of the third failed recheck make the whole, and one operation before the retirement keeps the views agreeing exactly if it does not disable the key once more |
| LockGaps.LateSuccessRetires | src/proxy.rs:930-946 | a success in either gap of the third failed recheck does not keep the key, one before it does |
| LockGaps.SettledExactly | src/proxy.rs:787-958 | with any number of reports on different keys between their locks, the agreement to come is settled key by key, each by its own record and its own pending entry |
| LockGaps.ManyPending | src/proxy.rs:787-958 | an operation keeps it exactly if it is harmless to each pending key |
| LockGaps.ReportsBegin | src/proxy.rs:842-944 | the first half of any report on a key with nothing pending keeps it |
| LockGaps.ReportsEnd | src/proxy.rs:1089-1123 | the second half writes what was pending and nothing else |
| LockGaps.RetirementEnds | src/proxy.rs:1174-1190 | a retirement may take the place of taking the key off the list |
| PoolRuns.RunValid | src/proxy.rs:550-958 | every reachable pool is valid, over any run of operations, flushes and restarts |
| PoolRuns.FileStaysInSync | src/proxy.rs:1125-1153 | after an operation that does not defer its save the file equals the pool, unless the operation retired a key that is not active |
| PoolRuns.RetirementNotSaved | src/proxy.rs:1174-1190 | a run of single reports from an empty pool reaches the exception with its last report and not before, and the next flush repairs it |
| PoolRuns.RetiredForever | src/proxy.rs:1174-1197 | a key that is retired and saved is never active again in any run without a replacement, restarts included |
| PoolRuns.ThreeFailedRechecks | src/proxy.rs:924-958 | a freshly disabled key, active or known from a stale report only, is retired by exactly the third failed recheck, whatever is done, flushed and restarted in between, short of a success of the key, a replacement, or a restart that has lost the key or its last verdict |
| PoolRuns.RestartAwaits | src/proxy.rs:590-629 | a restart that reads the last verdict on a disabled key that is not retired, and finds its node, goes on with the same count |
| PoolRuns.RecordFollowsEvents | src/proxy.rs:787-882 | from an active key without a record, and from any pool right after a success or a successful recheck of the key, a run without a verdict on it leaves the record that its own failures and scans since then make |
| PoolRuns.PoolReportCountDecides | src/proxy.rs:787-882 | so fewer failure reports than T*D since the last success never disable the key, the upper number of them always has, and fewer than T never hold it back |
| PoolRuns.PoolHoldsBack | src/proxy.rs:787-1049 | and in such a run the key is passed over exactly while it is disabled or a cooldown that one of its reports began still lasts |
| PoolRuns.GenerationTracksPool | src/proxy.rs:639-719 | the generation goes up by one exactly when the active proxies change or are replaced |
| PoolRuns.ReplacementForgets | src/proxy.rs:639-661 | a replacement leaves the given nodes in order and nothing retired, disabled or failed |
| PoolRestart.RestartKeepsKeys | src/proxy.rs:550-629 | a restart gives back the ordered active keys without local listeners exactly if every saved node restores under its own key |
| PoolRestart.RestartKeepsVerdicts | src/proxy.rs:1058-1083 | a restart keeps the retired set, the disabled list, and for every key active before and after whether it is disabled and with which recheck count; all transient counts are gone |
| PoolRestart.RestorableKeysReturn | src/proxy.rs:590-597 | if every saved node restores under its own key, the keys active again are exactly the saved ones |
| PoolRestart.SaveAfterRestart | src/proxy.rs:1125-1153 | saving, restarting and saving again gives the same image exactly if every saved node restores, under different keys, none of them retired |
| PoolRestart.RestartIsProjection | src/proxy.rs:550-629 | whatever the file said, one restart reaches a pool that every further restart gives back unchanged |
| PoolRestart.OwnNodesReturn | src/proxy.rs:1243-1363 | a pool of nodes as the program makes them comes back entry by entry, but for local listeners, and saves to the same image |
| PoolRestart.StartThenMerge | src/proxy.rs:590-597 | starting with further nodes is the same as starting without them and merging them |
| ProxyPools.ListDisabled | src/proxy.rs:1143 | the list that is written means the map it came from |
| ProxyPools.RetainNew | src/proxy.rs:592-597 | the start-up loop keeps the first entry of each key that is not retired |
| ProxyPools.Retained | src/proxy.rs:1180-1188 | the removal loop drops exactly the key's entries, and the length tells whether there were any |
| ProxyPools.ProxyPool.constructor | src/proxy.rs:550-629 | the new pool is the saved one followed by the given nodes, its bag fits it, and the file means the pool |
| ProxyPools.ProxyPool.RestoreFailureRecords | src/proxy.rs:1058-1083 | exactly the active keys that are listed get a disabled record |
| ProxyPools.ProxyPool.PersistState | src/proxy.rs:1125-1153 | what is written loads as the image of the pool; without a path nothing is written |
| ProxyPools.ProxyPool.ReplaceAll | src/proxy.rs:639-661 | the pool is the given nodes with nothing retired, disabled or failed, and the bag is reset to the new generation |
| ProxyPools.ProxyPool.MergeNodes | src/proxy.rs:663-734 | the pool becomes its merge, the summary counts it, the bag is reset exactly if something was added, the file means the pool |
| ProxyPools.ProxyPool.CollectNew | src/proxy.rs:677-703 | the loop collects the fresh entries, counts the others, and marks listed keys as disabled |
| ProxyPools.ProxyPool.ReportSuccess | src/proxy.rs:787-818 | the key's record goes whatever it said and no other does, the disabled entry with it if there was one; only then is the file written |
| ProxyPools.ProxyPool.ReportFailure | src/proxy.rs:820-882 | the record takes one more report, and the pool is listed and saved exactly when that disables the key |
| ProxyPools.ProxyPool.ReportRecheckSuccess | src/proxy.rs:892-911 | a disabled key is cleared everywhere and the bag reset; any other key is left alone |
| ProxyPools.ProxyPool.ReportRecheckFailure | src/proxy.rs:924-958 | a disabled key gets one more failed recheck, or is retired with its third; the outcome says which |
| ProxyPools.ProxyPool.RemoveAndRetire | src/proxy.rs:1174-1197 | the key is retired, unlisted and removed; bag, generation and file change exactly if it was active |
| ProxyPools.ProxyPool.IsUnavailable | src/proxy.rs:1014-1049 | a key is unavailable exactly while its record is disabled or its cooldown ends later than now; an expired cooldown is forgotten on the way |
| ProxyPools.ProxyPool.NextRandomAvailable | src/proxy.rs:969-1003 | none exactly if every entry is tried, disabled or cooling, after at most 2*len-1 draws from any partly used bag; an entry found is untried, not disabled and not cooling, and only its own expired cooldown was cleared |
| ProxyPools.UsableIsFree | src/proxy.rs:993-1000 | an entry may be given out exactly if it is untried and its record is neither disabled nor cooling |
| ProxyPools.FailThenDraw | src/proxy.rs:1521-1535 | one failure report and a draw later on: a key that the report disabled, or that is in a cooldown at the time of the draw, is not given out; once the cooldown is over a pool of this proxy alone gives it |
| ProxyPools.ScanStep | src/proxy.rs:984-1002 | the counter of the scan reaches the pool's length only after a full round was seen |
| ProxyPools.RoundCovers | src/proxy.rs:984-1002 | a finished round has looked at every entry |
| ProxyPools.ProxyAttempts.constructor | src/proxy.rs:736-765 | an empty pool gets one direct attempt, any other as many as the retry limit allows, and as many as it has entries without one |
| ProxyPools.ProxyAttempts.Next | src/proxy.rs:1211-1225 | an attempt is refused exactly if the limit is used up or nothing untried is usable; one that is made is neither disabled nor cooling, becomes tried, and costs one |
| ProxyPools.Candidates | src/proxy.rs:767-769 | draining the attempts at one instant gives one entry for each available key, or for as many as the retry limit allows, all different and none disabled or cooling; or one direct connection |
| ProxyPools.AvailableAreFree | src/proxy.rs:1014-1049 | the available keys are the active ones that are neither disabled nor cooling |
| ProxyPools.BothVersionsRead | src/proxy.rs:1376-1393 | files of version 1 and 2 are read alike, and no others |
| ProxyPools.LastEntryCounts | src/proxy.rs:571-581 | of several entries for one key in the file the last one counts |
| LockMachine.StepKeepsInv | src/proxy.rs:639-1197 | every step of every thread keeps the locking discipline, exclusion, and the bag's fit with the pool's length at its generation |
| LockMachine.DrawInBounds | src/proxy.rs:969-1003 | a draw indexes inside the pool that is current at the draw, and is not offered again in its round |
| LockMachine.HolderAsksHigher | src/proxy.rs:639-1197 | a thread that holds a lock is running and waits only for a lock of higher rank |
| LockMachine.SomeoneCanStep | src/proxy.rs:639-1197 | from any live thread, following who blocks it leads to a thread that can step |
| LockMachine.ScriptBalanced | src/proxy.rs:639-1197 | every operation takes its locks in rank order, works under them, and ends holding nothing |
| LockMachine.NeverDeadlocks | src/proxy.rs:639-1197 | a run of any threads making any calls can go on until all are done, which takes a fixed number of steps |
| LockMachine.EveryDrawInBounds | src/proxy.rs:969-1003 | over whole runs, every draw is inside the pool it indexes |
| ContentQueue.DecodingShortens | src/parser.rs:979-997 | unwrapping base64 strictly shortens the content |
| ContentQueue.ParseLocalContent | src/parser.rs:273-335 | the loop over the lines gives what the lines mean one by one, after base64 and Clash documents |
| ContentQueue.UnwrappedExactly | src/parser.rs:979-997 | which texts are unwrapped, and by which alphabet, from at least eight characters |
| ContentQueue.DownloadedLinesAreNotExpanded | src/parser.rs:304-323 | where subscriptions are not allowed only a Clash document can name further ones |
| ContentQueue.LocalRead | src/parser.rs:273-335 | at its place an item yields the native and complex proxies of its own lines or document, and names exactly the subscriptions that its text may name |
| ContentQueue.OnlyDocumentsNameMore | src/parser.rs:223-231 | what is asked for below a download or an unwrapped text is named by a Clash document there |
| ContentQueue.FourDownloads | src/parser.rs:216-221 | nothing is read more than four downloads deep |
| ContentQueue.UnaskedDoesNotMatter | src/parser.rs:216-231 | answers to downloads that are not asked for change nothing of what is read |
| ContentQueue.SameLoad | src/parser.rs:189-237 | so two complete readings load the same proxies, whatever their order and whatever the downloads not asked for would be |
| ContentQueue.ReadingGoesOn | src/parser.rs:201-233 | each turn reads one place, adds its proxies, and queues exactly the places below it that exist |
| ContentQueue.ChildrenBelow | src/parser.rs:201-233 | what replaces an item is deeper, or at most one item as deep with shorter content |
| ContentQueue.PopExpands | src/parser.rs:201-233 | taking an item apart keeps the proxies loaded plus the expansion of the queue |
| ContentQueue.PopLowersWeight | src/parser.rs:201-233 | the content left at the item's depth shrinks and shallower depths stay, whatever was downloaded |
| ContentQueue.Turn | src/parser.rs:201-233 | each turn lowers the loop's measure and keeps depths within the limit |
| ContentQueue.ParseContentQueue | src/parser.rs:189-237 | whatever each single download returns, the loop ends; it fails only if some text on the way is a broken document, and otherwise visits exactly the places of the source, once each and level by level, asks for exactly the subscriptions named there, once each, and loads their proxies in that order, as multisets the recursive expansion of the source |
| ContentQueue.TrackedTurn | src/parser.rs:201-233 | every item of the queue stands in a place of its own below an item already taken, and no place was asked twice |
| HealthWorkers.CheckProxyNode | src/health.rs:757-818 | the first attempt that does not simply fail decides; a node is unhealthy exactly if it cannot be built or all attempts failed |
| HealthWorkers.StepKeepsInv | src/health.rs:390-471 | every step of every worker keeps each node in exactly one place: queued, in flight, judged or dropped |
| HealthWorkers.AlwaysPartitioned | src/health.rs:386-483 | the same at every point of every interleaving, with the number of checked nodes adding up to the verdicts |
| HealthWorkers.RoundCounters | src/health.rs:411-482 | in a round over disabled keys, with requests and merges going on, the recovered nodes are the healthy verdicts, the removed ones the unhealthy verdicts on keys with two failed rechecks or more, and the still disabled ones the other unhealthy verdicts |
| HealthWorkers.DisabledKeysOnce | src/proxy.rs:771-785 | the list a round starts from names every active, disabled key exactly once if keys are distinct |
| ProxyPools.ProxyPool.DisabledProxies | src/proxy.rs:771-785 | the loop lists exactly the active keys whose record says disabled, in order |
| HealthWorkers.RunsAreShort | src/health.rs:386-483 | no schedule takes more than three steps a node and two a worker |
| HealthWorkers.StopIsFinal | src/health.rs:394-410 | once the stop flag is set a worker that had read it before takes at most one more node, all others none, and every step brings its worker nearer to leaving |
| HealthWorkers.VerdictNeedsDisabled | src/proxy.rs:892-936 | a verdict on a key that is not disabled changes nothing |
| HealthWorkers.EveryRoundFinishes | src/health.rs:386-483 | a round has a bounded number of steps, and unless all its workers are gone it can go on, whatever others do to the pool |
| HealthWorkers.RoundEnds | src/health.rs:637-702 | once all workers are gone, without exhaustion every node got exactly one verdict; in any case at most one node a worker was dropped and the rest is still queued |
| HealthWorkers.RoundVerdicts | src/health.rs:411-466 | with requests and merges going on, a disabled key on which nobody else reports is active and clean once judged healthy, has one more failed recheck or is retired once judged unhealthy, and keeps its count without a verdict |
| GenerationBatches.EnoughBatches | src/mihomo.rs:342-348 | no cover by batches of the size or less has fewer batches than planned |
| GenerationBatches.ExactlyPlanned | src/mihomo.rs:342-348 | full batches followed by one partial batch are exactly as many as planned |
| GenerationBatches.MihomoManager.PrepareGeneration | src/mihomo.rs:74-134 | the loop ends; without a binary it fails and only then for that reason; its log of reservations begins with a full batch, halves exactly after a failed one, goes on behind a served one, and ends with what the result says; on success the batches join up to the input in order, are numbered consecutively and stay within the configured size, are at least as many as planned and exactly so without a shrink |
| GenerationBatches.ExplainedExactly | src/mihomo.rs:96-133 | success, refused ports and a failed start come exactly if the last reservation went that way, and success is sure if single ports can always be had and every batch starts |
| GenerationBatches.NodesInOrder | src/mihomo.rs:119-124 | the listeners come out in input order, one a proxy |
| GenerationBatches.ShrinksAreLogarithmic | src/mihomo.rs:100-108 | halving from a size below 2 to the (b+1) happens at most b times |
| Utf8.DecodeEncode | src/server.rs:163-164 | the bytes of a text read back as the text |
| Utf8.EncodeDecode | src/server.rs:163-164 | bytes that read as text are that text's bytes, so nothing else is accepted |
| Text.Ipv4Shown | src/server.rs:352-353 | a printed dotted quad reads back as its octets |
| Text.Ipv4Canonical | src/outbound.rs:758-760 | an accepted dotted quad is spelled in exactly one way |
| Targets.ShownTargetParses | src/proxy.rs:280-326 | showing a target and parsing it gives it back exactly if its host is not empty, starts with neither blank nor bracket, and has no colon unless it is an IP literal |
| Targets.NameWithPort | src/proxy.rs:300-305 | a name and a port give that target whatever the default port is |
| Targets.NameAlone | src/proxy.rs:306-307 | a name alone gets the default port, and fails without one |
| Targets.BracketWithPort | src/proxy.rs:286-298 | a bracketed host and a port give that target |
| Targets.BracketAlone | src/proxy.rs:286-298 | a bracketed host alone gets the default port, and fails without one |
| HttpRequests.EndIsFirst | src/server.rs:263-268 | the header block ends with the first empty line, and there is none while it is incomplete |
| HttpRequests.FirstHeader | src/server.rs:252-261 | the first header of that name is found whatever its case, and lines without a colon are passed over |
| HttpRequests.ParseHttpRequest | src/server.rs:159-211 | the loop that builds the forwarded bytes gives the rewritten request, or the failure of the same check; an accepted request is a tunnel exactly if its method spells connect, and otherwise leads to the URL's host and port, or to what its first Host header spells, port 80 where that has none |
| HttpRequests.AbsoluteAccepted | src/server.rs:217-242 | a request in absolute form is accepted exactly if its URL is well-formed and its host not blank |
| HttpRequests.OriginAccepted | src/server.rs:244-249 | a request in origin form is accepted if its first Host header spells a target, and not without one |
| HttpRequests.ProxyHeadersExactly | src/server.rs:194-199 | the lines held back are exactly those named Proxy-Connection or Proxy-Authorization in any case |
| HttpRequests.RewrittenLine | src/server.rs:192-193 | the rewritten request begins with method, path and query, and version, single spaces between them |
| HttpRequests.ReadHttpRequest | src/server.rs:134-157 | reading stops with the first chunk that completes a header block, or when the limit is passed or the stream ends without one |
| HttpRequests.MessageReadBack | src/server.rs:159-169 | a header block of non-empty lines is read back line by line, and what follows it is untouched |
| HttpRequests.KeptLines | src/server.rs:194-203 | exactly the proxy headers are dropped, once and for all, and Host is found as before |
| HttpRequests.RewriteReparsed | src/server.rs:159-249 | the rewritten request parses again with the same bytes, to the target its Host header names |
| HttpRequests.OriginFormIsFixedPoint | src/server.rs:159-268 | in origin form parsing the forwarded bytes gives the same target and the same bytes |
| HttpRequests.AbsoluteFormFixedPoint | src/server.rs:217-242 | in absolute form it does so exactly if the Host header names the URL's own target |
| HttpRequests.RewriteConserves | src/server.rs:190-205 | method, version, the other header lines in order, and everything after the header block are carried over |
| HttpRequests.LateBytes | src/server.rs:134-211 | bytes read together with the header block change neither the target nor what comes before them; behind a CONNECT they are dropped |
| HttpRequests.ConnectRequest | src/outbound.rs:533-542 | the pushes build exactly the lines of the request |
| HttpRequests.ConnectHead | src/outbound.rs:533-542 | for a host without blanks the inbound side finds the end of the header block at the last byte written |
| HttpRequests.ConnectRoundTrip | src/outbound.rs:533-542 | the request is read back as CONNECT to its target exactly if the target's text parses back and its host has no blanks |
| Socks5.EncodeDomainOrIp | src/outbound.rs:757-775 | the pushes build the address bytes, or fail for a name of more than 255 bytes |
| Socks5.EncodeIp | src/outbound.rs:789-806 | the pushes build the address bytes of either family |
| Socks5.ReadSocks5Target | src/server.rs:347-382 | the reads give the target of each address kind and leave exactly what follows |
| Socks5.ReadSocks5Request | src/server.rs:337-386 | the reads give command and target and leave exactly what follows, or the failure of the same check |
| Socks5.RequestRoundTrip | src/outbound.rs:690-697 | a request is written unless the name is too long, and read back as CONNECT to the same target, consuming exactly what was written, unless the host is blank |
| Socks5.WireForm | src/outbound.rs:692-806 | the request's bytes: version, CONNECT, reserved, kind, address, and the port with its high byte first |
| Socks5.HeadRead | src/server.rs:337-347 | the command is the second byte, whatever it is |
| Socks5.GreetingDecides | src/server.rs:285-300 | of any list of methods no authentication is taken if it is offered, and otherwise the inbound side gives up |
| Socks5.NamesTaken | src/server.rs:356-366 | the reader takes every name that is not blank, and exactly those that are well-formed survive being shown and parsed |
| Socks5.BlankNameTaken | src/server.rs:356-366 | a concrete name that is read but does not survive |
| Socks5.HandshakeAgrees | src/outbound.rs:703-729 | greeting and reply are understood on the other side, and nothing after them is consumed |
| XPlus.XPlusSocket.DeobfuscatePacket | src/hysteria.rs:461-470 | the overlapping shift leaves the decoded payload in front and the last 16 bytes as they were; short packets are untouched |
| XPlus.XPlusSocket.ObfuscatePayload | src/hysteria.rs:472-483 | the packet is the salt followed by the masked payload |
| XPlus.DecodeUndoesEncode | src/hysteria.rs:461-483 | decoding undoes encoding for every key, salt and non-empty payload |
| XPlus.PacketBytes | src/hysteria.rs:472-483 | byte by byte: the salt in clear, then the payload under the digest, used over and over |

## Left out

- Pool generations and generation numbers are unbounded; the wrap-around of the 64-bit counters is not modelled.
- Different proxy keys have different hashes; collisions of the digest are not modelled.
- Saving the state file always succeeds and is atomic; a failed save is only logged by the program. The JSON text of the file is not modelled, only what it means.
- Time is a number handed to each call. `ProxyPools.Candidates` drains the iterator at one instant.
- A shuffle is any permutation; nothing is said about its distribution.
- ProxyPools.ProxyPool.ReportFailure: the failure records are one map; which of the sharded maps holds a key is modelled only in the lock model.
- LockMachine.NeverDeadlocks: lock poisoning by a panic is not modelled, and the choices the pool's data makes inside a call are arbitrary.
- LockMachine.StepKeepsInv: the failure records and the disabled list are not part of the machine; what can go wrong between the locks of a report is stated in `LockGaps`.
- LockGaps.ManyPending: two reports on the same key that are between their locks at the same time are not modelled.
- HealthWorkers.RoundVerdicts: each verdict, and each operation of others, is applied in one step; what may happen between the locks of a verdict is stated in `LockGaps`.
- The worker loop of the first health check has the same steps as the one modelled, without the pool; sorting by delay and the latency summary are not modelled.
- ContentQueue.ParseContentQueue: which lines are proxies, and the Clash document parser, are parameters.
- GenerationBatches.MihomoManager.PrepareGeneration: preparing a batch is one step that succeeds or fails; processes, ports and configuration files are not modelled, nor are other callers that take numbers at the same time.
- XPlus.XPlusSocket.DeobfuscatePacket: the receive loop around it, which compacts the metadata but not the buffers, is not modelled.
- ProxyNodes.RestoredKey: the printed form of a Shadowsocks address is taken to be the usual socket address form; its library is not part of this model.
- Socks5.RequestRoundTrip: names resolved before they are sent, password authentication and SOCKS4 are not modelled.
- HttpRequests.ConnectRoundTrip: the response to the request is not modelled.
- Labels, the accept loop, relaying, TLS, QUIC, timeouts, logging, configuration and the refresh schedule are not modelled.
