# ACME hub and spoke: a verified model

The repository runs one *hub* and many *spokes*. The hub keeps the desired state (spokes, their bearer tokens, their
certificate assignments, DNS credentials) and the observed state (one row per certificate) in SQLite, serves a snapshot
of the desired state, decides when a certificate is due and hands out renewal leases. A spoke polls the hub, runs the
ACME order, installs the certificate on disk, runs a reload hook and reports back.

This project models that system in Dafny and proves what it keeps. Time is an integer number of nanoseconds counted from
Go's zero time; strings are sequences of characters; a table is a set or a map.

## How it is built

- **Values and tables.** `Basics`, `Ordering`, `Float64`, `Config`, `CertState` and `Tables` define the values, the rows,
  float64 rounding, and `Tables.Perform`: what one store method does to the whole database when it runs as one step.
- **Imperative code.** `HubStore.Store`, `SpokeStore.Store`, `SpokeAgent.Agent`, `HubApi.Server`, `Snapshot`,
  `Watchdog.State`, `FleetStatus`, `Legacy`, `Importer`, `Onboard`, `CertWriter.Disk`, `CertWriter`, `Prune` and
  `Junction` follow the Go code loop by loop and branch by branch, and are proved against specification functions. The
  hub's handlers take functions for what other connections do to the database between any two of their statements, and
  the number of a statement that returns an error.
- **Runs.** `History` is the log of one row; `LeaseProtocol` is any number of processes, a clock and one row; `Alerts` is
  any number of overlapping check-ins and one row; `HubSystem` is the hub with one SQL statement, one transaction or one
  snapshot swap per step, and `Concurrency`, `EnrolmentProtocol`, `Rotation` and `Relay` are about its runs; `CrashSafety`
  is about histories of installs and prunes that may stop at any system call; `SpokeAgent` and `Watchdog` have runs of
  polls and of passes.
- **Laws of the specification functions.** What functions such as `Tables.Perform`, `Checkin.EventsOf`, `SpokeAgent.Poll`,
  `Watchdog.Look`, `Due.JitterFor`, `FleetStatus.EntryFor` or `Junction.Layout` compute is pinned by lemmas that do not go
  through them: by columns, by when a method succeeds, by what readers find afterwards, or over histories and runs.

Random tokens, hash values, ACME outcomes, hook outcomes, row orders, map iteration orders, failing statements and system
calls, and the points at which a process dies are parameters or steps, and theorems hold for all of them unless they say
otherwise. Clock readings are parameters too. `History` takes them in any order; the clock of `LeaseProtocol`, the clocks of
the runs in `SpokeAgent` and those in `Watchdog.GraceIsFreshExactlyWhen` do not go back.

## What came out false, and exactly when it holds

- **Jitter range.** `internal/hubapi/jitter.go:10-11` says the offset is below the maximum. In float64 arithmetic it is, for every
  maximum, exactly for the hashes below 2^64 - 1024 (the top 1024 reach it), unless converting the maximum rounds it down
  (`Due.HalfOpenExactlyWhen`). The closed range holds for every hash exactly when the maximum is not rounded up
  (`Due.ClosedExactlyWhen`).
- **Far-future expiry.** `internal/hubapi/handlers.go:66-76` says the lifetime check defeats a report whose far-future expiry
  suppresses renewal. It does not: the claimed start is never compared with the clock, so for every moment some acceptable report
  is not due then (`HubApi.FarFutureWindowIsAccepted`). Over a whole history renewal is due again within 398 days of the latest
  report exactly if every report's expiry is within 398 days plus renew-before of the hub's clock
  (`HubApi.RenewalIsPromptExactlyWhen`).
- **Alerts on transitions.** Two overlapping check-ins of a failed renewal both alert (`Alerts.OverlapAlertsTwice`), and a hook
  statement that fails after the upsert loses the alert for good (`Alerts.SilentUpsertLosesTheAlert`). Alerts and all-clears
  alternate and the last one is true at every moment exactly if every upsert that leads to a decision finds the status its
  handler read still current, every other one leaves the row failing or not as it was, and no failing row is deleted
  (`Alerts.InStepExactlyWhen`).
- **Backoff cap.** The capped exponential is what the spoke waits exactly while the product fits an int64, a streak of 22 with the
  defaults (`SpokeAgent.CappedExactlyWhenItFits`, `SpokeAgent.DefaultFitsUpTo22`); beyond that a platform whose conversion
  yields the least int64 retries at once (`SpokeAgent.OverflowRetriesAtOnce`).
- **Mutual exclusion of attempts.** A hook report of one process, or a deletion, frees a lease another process holds
  (`LeaseProtocol.ForeignReportBreaksExclusion`). Attempts are exclusive and within their leases throughout a run exactly if every
  step of it is behaved (`LeaseProtocol.AttemptsExcludeExactlyWhen`); and while nothing frees the lease, nobody else can start
  an attempt by a given time exactly if the row holds a lease that lasts until then
  (`LeaseProtocol.LeaseExcludesExactlyUntil`).
- **Hub and spoke status.** Whatever the hub knew before, they agree on health after a delivered poll exactly if the hub accepts what was
  reported, the poll did not merely retry the hook of a certificate whose renewal had failed, and did not report a failure that
  could not be recorded locally; and on the certificate exactly if the accepted reports describe one
  (`SpokeAgent.DeliveryInformsExactlyWhen`). A certificate of more than 398 days, which a private authority may issue, is
  installed, reported and refused (`SpokeAgent.LongLivedCertificateIsRefused`).
- **Release of the lease.** `internal/hubapi/handlers.go:249-253` has a check-in free the lease eventually. The answer "due" is followed by
  one the hub accepts exactly for a failure and for a believable certificate whose issuance could be recorded locally
  (`SpokeAgent.DueIsFollowedByAReport`); else the lease runs out.
- **Referential integrity, statement by statement.** Kept by every step except an `AddSpokeToken` insert whose spoke was deleted since
  its check and a `RemoveDNSProvider` delete whose provider came into use since its scan
  (`Concurrency.ConsistentExactlyUnless`, `Concurrency.CheckThenInsertRaces`, `Concurrency.ScanThenDeleteRaces`).
- **Token rotation.** A served, stored token stays served in every continuation that spares it exactly if no reload under way has
  already read the tables without it (`Rotation.ServedForGoodExactlyWhen`): `Reload` is not serialised, so an older,
  slower reload can publish a snapshot that drops a new token (`Rotation.StaleReloadCanDrop`).
- **Token revocation.** For the same reason a removed token that is no longer served stays refused exactly if no reload under way has
  already read it (`Rotation.RevokedForGoodExactlyWhen`, `Rotation.LateReloadRevives`).
- **Legacy import.** `validate` accepts a provider named by the empty string, which the store refuses; every other validated document imports
  (`Importer.ImportDocument`, `Importer.EmptyProviderNamePassesValidate`).
- **Onboarding.** `PlanEnrollment` and `Plan` check all that the store checks except the syntax of the certificate name and the domains;
  exactly such a request leaves a new spoke without its certificate behind (`Onboard.PlanEnrollment`, `Onboard.CheckedFallsShortExactly`).
- **Missing DNS provider.** `internal/hubapi/dns01.go:71-74` takes a missing provider for impossible. A reload reads certificates and providers in
  different statements, so one that straddles the removal of both publishes a certificate without its provider, although the
  database is consistent throughout (`Relay.StraddlingReloadMissesProvider`). What a reload publishes has every provider that
  requests can ask for exactly if none of them was deleted, and not stored again, between its third and its fourth read
  (`Relay.ReloadAnswersExactlyWhen`). A request also loads the snapshot twice, and the later one may lack what the earlier one
  promised (`Relay.LaterSnapshotLacksProvider`).
- **Grace period.** `internal/hubapi/watchdog.go:62-69` promises a freshly onboarded certificate a grace period. The memory outlives the
  configuration: one deleted before it ever reported and added again later alerts in the first pass
  (`Watchdog.ReaddedAlertsAtOnce`). The period is fresh exactly if no pass at an earlier time saw the certificate configured and
  unreported without a later one seeing it checked in (`Watchdog.GraceIsFreshExactlyWhen`).
- **DNS provider choice.** It is independent of map order exactly when all override keys that match the domain name the same provider
  (`Snapshot.ResolutionIsOrderFree`).
- **Reused version names.** `internal/certwriter/certwriter.go:66-72` rests crash safety on new names. From an installed bundle a Write
  is safe wherever it stops exactly if its name is not the current version's, or at most one of the three files changes
  (`CertWriter.WriteIsSafeExactlyWhen`); otherwise a Write that dies between two renames leaves a torn bundle
  (`CertWriter.TornWrite`). Any other reuse is harmless, over whole histories (`CrashSafety.CurrentIsAlwaysWhole`).

## Model

| member | source | states |
|---|---|---|
| HubStore.Store.CheckinActive | internal/hubstore/certstate.go:42-64 | the upsert sets window, serial, status and success time, clears error, streak and lease, and leaves the hook columns and every other row |
| HubStore.Store.CheckinFailed | internal/hubstore/certstate.go:84-107 | the upsert records status, error and streak and frees the lease, and never touches window, serial or last success |
| HubStore.Store.MarkHookResult | internal/hubstore/certstate.go:123-141 | only the two hook columns change |
| HubStore.Store.Claim | internal/hubstore/certstate.go:221-243 | the guarded upsert affects a row exactly when no unexpired lease is there, and then writes holder, time and expiry |
| HubStore.Store.All | internal/hubstore/certstate.go:172-197 | every observed row once |
| HubStore.Store.Get | internal/hubstore/certstate.go:146-164 | the row of the key, or not found |
| History.RowDescribesHistory | internal/hubstore/certstate.go:42-243 | after any sequence of statements the row shows: certificate columns of the latest success, status and streak of the latest checkin, hook columns of the latest hook report, the lease of the one open claim, defaults for what never happened |
| History.DescriptionDetermines | internal/hubstore/certstate.go:42-243 | that description fixes every column: two rows that fit one history are equal |
| History.LeaseExclusion | internal/hubstore/certstate.go:199-243 | of two granted claims, in whatever order statements ran and clocks were read, a release lies between or the second sampled after the first expired |
| History.GrantedExactly | internal/hubstore/certstate.go:221-243 | a claim is granted if and only if every open claim has expired at its sampled time |
| History.HeldUntilReleased | internal/hubstore/certstate.go:199-220 | a granted lease stands until its expiry while nothing releases it |
| LeaseProtocol.AttemptsExclude | internal/hubapi/handlers.go:236-293 | in every run in which attempts stay within their lease and no foreign report lands inside one, at most one process attempts a certificate at a time |
| LeaseProtocol.AttemptsExcludeExactlyWhen | internal/hubapi/handlers.go:236-293 | attempts are exclusive, undisturbed and within their leases at every moment of a run if and only if every step respects that condition |
| LeaseProtocol.StepExcludesExactlyWhen | internal/hubapi/handlers.go:236-293 | a single step keeps exclusion if and only if it respects the condition |
| LeaseProtocol.LeaseExcludesExactlyUntil | internal/hubstore/certstate.go:199-243 | while one process attempts and nothing frees the lease, no continuation lets another start by a given time if and only if the row holds a lease that expires then or later |
| LeaseProtocol.OverlapHasACause | internal/hubapi/handlers.go:236-293 | in every run, two simultaneous attempts mean a foreign report or an outlived lease |
| LeaseProtocol.RunKeepsInv | internal/hubapi/handlers.go:236-293 | in every reachable state undisturbed attempts have disjoint leases and the row still holds the last one |
| LeaseProtocol.ExpiredLeaseYields | internal/hubstore/certstate.go:199-243 | a claim sampled after the expiry of a crashed holder's lease is granted |
| LeaseProtocol.FinishYields | internal/hubstore/certstate.go:42-107 | a finished attempt frees the lease, so the next claim is granted |
| LeaseProtocol.AloneAttemptsExactlyWhen | internal/hubapi/handlers.go:254-293 | left alone, a process that asks attempts if and only if the certificate is unknown or due and no unexpired lease is on its row |
| LeaseProtocol.ForeignReportBreaksExclusion | internal/spokeagent/agent.go:127-183 | a foreign report during an attempt lets a second process attempt at once, however long the lease |
| Due.HalfOpenExactlyWhen | internal/hubapi/jitter.go:15-23 | in float64 arithmetic, for every maximum, the offset is below the maximum if and only if the hash is below 2^64 - 1024 or converting the maximum rounds it down |
| Due.ClosedExactlyWhen | internal/hubapi/jitter.go:15-23 | for any maximum the offset stays within it for every hash if and only if converting the maximum to float64 does not round it up |
| Due.JitterAgainstFloat | internal/hubapi/jitter.go:15-23 | the top 1024 hashes give exactly the float64 of the maximum, all others less |
| Due.JitterIsFraction | internal/hubapi/jitter.go:15-23 | for every hash and maximum the offset is hash / 2^64 of the maximum, to within four parts in 2^53 and rounded down to a nanosecond, and zero for a maximum of zero or less |
| Due.JitterHalves | internal/hubapi/jitter.go:15-23 | the hash 2^(64-k) is offset by exactly the maximum divided by 2^k, for maxima up to 2^53 |
| Due.JitterMonotone | internal/hubapi/jitter.go:15-23 | a greater hash never has a smaller offset |
| Float64.TopRoundsUp | internal/hubapi/jitter.go:21 | the 64-bit hashes that convert to 2^64 are exactly the top 1024 |
| Float64.RelativeError | internal/hubapi/jitter.go:21-22 | rounding a product moves it up by at most one part in 2^53 |
| Float64.RelativeErrorBelow | internal/hubapi/jitter.go:21-22 | and moves it down by at most as much |
| Float64.RoundIsNearest | internal/hubapi/jitter.go:21-22 | shifting bits out gives the nearest number with 53 significant bits, a tie going to the even one |
| Float64.RoundMonotone | internal/hubapi/jitter.go:21-22 | rounding never reverses an order |
| Due.DueWindow | internal/hubapi/handlers.go:263-280 | due at every instant after expiry minus renew-before, at none up to that minus the greatest jitter, for every hash, jitter rounded as float64 |
| Due.DueFromItsFraction | internal/hubapi/handlers.go:263-280 | a hash is due from hash / 2^64 of the maximum before expiry minus renew-before, to within four parts in 2^53 and two nanoseconds |
| Due.StaysDue | internal/hubapi/handlers.go:272-280 | once due, due until a successful checkin, through every other statement |
| Checkin.Validate | internal/hubapi/handlers.go:77-100 | accepts exactly failed reports and active ones with a serial and a window of at most 398 days, with a known hook status |
| HubApi.Server.HandleCheckin | internal/hubapi/handlers.go:104-194 | whatever others do between its statements and whichever of them fails: a malformed report changes nothing; an accepted one runs its one or two statements, and tells the operator exactly when the status it read first and the reported one differ in being failed, with the expiry it read last; a failing hook statement leaves the upsert done and the operator untold; if the others spare the row, it ends with the check-in, the success and the hook dated by the hub's clock |
| HubApi.Server.Record | internal/hubapi/handlers.go:145-174 | the one upsert, and the hook statement only when the report carries a hook result |
| HubApi.ReportIsRecorded | internal/hubstore/certstate.go:42-141 | column by column, what an accepted report leaves on any row: what it claims, dated by the hub's readings and never by the claimed window; a failure keeps window, serial and last success |
| HubApi.Server.NotifyIfTransitioned | internal/hubapi/handlers.go:206-229 | the alert condition on the previous and the reported status |
| Alerts.InStepExactlyWhen | internal/hubapi/handlers.go:122-229 | over every run of overlapping check-ins, any of which may end early, alerts and all-clears alternate and the last one told is true if and only if every upsert followed by a decision finds the status its handler read still current, every other upsert leaves the row failing or not as it was, and no failing row is deleted |
| Alerts.TellsTheChangeExactlyWhen | internal/hubapi/handlers.go:206-229 | one upsert tells exactly what it changed if and only if the status read is still the row's, as far as failing goes |
| Alerts.OverlapAlertsTwice | internal/hubapi/handlers.go:122-158 | a run of two overlapping check-ins that alerts twice for one change |
| Alerts.SilentUpsertLosesTheAlert | internal/hubapi/handlers.go:163-174 | a run in which the hook statement fails after the upsert: the row is failed, the next failed check-in finds it so, and nobody is ever told |
| HubApi.Server.HandleDue | internal/hubapi/handlers.go:254-293 | whatever others do between read and claim, and whichever fails: answers due exactly when the row read was due and the lease was free at the claim, and then the lease is taken; a row that is not due is not written |
| HubApi.RowsStayBelievable | internal/hubapi/handlers.go:58-100 | whatever handlers record, the row on file has a plausible validity window or none |
| HubApi.RenewalIsPromptExactlyWhen | internal/hubapi/handlers.go:66-76 | over a whole history, the certificate is due again within 398 days of its latest successful report if and only if every report claimed an expiry within 398 days plus renew-before of the hub's clock |
| HubApi.PromptExactlyWhen | internal/hubapi/handlers.go:272-280 | the same for one row |
| HubApi.FarFutureWindowIsAccepted | internal/hubapi/handlers.go:77-100 | for every moment, however late, an acceptable report exists after which the certificate is not due then |
| HubApi.Server.HandleEnroll | internal/hubapi/enroll.go:40-98 | whatever others do between lookup and redeem, and whichever fails: 200 exactly for a secret of a served spoke redeemable at both, with its bearer token and served certificates; 401 also for a lost race; no other answer uses the secret up |
| HubApi.LoadState | internal/hubapi/server.go:49-85 | four reads with anything happening in between and any of them failing: a snapshot of exactly what they found, or none |
| HubApi.NewServer | internal/hubapi/server.go:89-98 | a server with such a snapshot, or none |
| HubApi.Server.Reload | internal/hubapi/server.go:112-119 | a successful reload serves such a snapshot; a failing read or provider leaves the previous one |
| HubApi.Server.HandleDNS01 | internal/hubapi/dns01.go:46-88 | 500 exactly when the snapshot of the second load lacks the provider of a request authorised under the first |
| SpokeStore.Store.GetOrCreateCertState | internal/store/certstate.go:29-47 | the row of the name, created as pending if there was none; an error leaves at most that creation |
| SpokeStore.Store.MarkIssued | internal/store/certstate.go:52-67 | the whole row after a success: active, window, serial, no error, streak zero, hook columns kept |
| SpokeStore.Store.MarkFailed | internal/store/certstate.go:75-91 | the whole row after a failure, keeping window and serial, and the new streak as result |
| SpokeStore.Store.MarkHookResult | internal/store/certstate.go:96-111 | only the hook columns change |
| SpokeAgent.Agent.ProcessIfDue | internal/spokeagent/agent.go:71-114 | the row and the messages to the hub after a poll, for every answer, outcome and failing local read or write |
| SpokeAgent.Agent.RetryHookIfFailed | internal/spokeagent/agent.go:127-137 | the hook is rerun and reported exactly when one is configured and the last run failed |
| SpokeAgent.Agent.ReportHookResult | internal/spokeagent/agent.go:165-183 | the report repeats the known window and serial and carries the hook's outcome |
| SpokeAgent.Agent.ProcessCert | internal/spokeagent/agent.go:214-280 | row and messages of an attempt, with the early return when the success cannot be recorded |
| SpokeAgent.Agent.Fail | internal/spokeagent/agent.go:282-294 | the failure is recorded and reported with the new streak, or zero when it could not be recorded |
| SpokeAgent.Agent.RunOnce | internal/spokeagent/agent.go:63-69 | every certificate is polled once on its own row, whatever happened to the others; no other row changes |
| SpokeAgent.AsksExactlyUnlessBackingOff | internal/spokeagent/agent.go:72-97 | the hub is asked, and so a lease can be taken, exactly when the spoke can read its row and is not backing off |
| SpokeAgent.AsksExactlyFrom | internal/spokeagent/agent.go:90-99 | after a failure the hub is asked if and only if the capped exponential has passed since the last attempt |
| SpokeAgent.AsksAgainExactlyAfterBackoff | internal/spokeagent/agent.go:71-97 | over every run and across restarts: a poll asks if and only if there is no streak, or the capped exponential of the streak has passed since the poll that recorded its last failure |
| SpokeAgent.StreakIsCounted | internal/store/certstate.go:52-91 | over every run the recorded streak is the number of failures recorded since the last recorded success, and the last attempt is dated by the poll that recorded it |
| SpokeAgent.PollRecords | internal/spokeagent/agent.go:214-294 | column by column, what a poll leaves on the row: a recorded success or failure and the time it ended, a recorded hook outcome, and nothing else |
| SpokeAgent.HookIsReportedExactlyWhen | internal/spokeagent/agent.go:103-183 | a hook outcome is sent, as it was, if and only if the hook ran: after an issuance, or again when not due and its last run failed |
| SpokeAgent.HookRetriedExactlyUntilItWorks | internal/spokeagent/agent.go:116-137 | over every run: each poll told "not due" reruns the hook if and only if the last recorded outcome is a failure |
| SpokeAgent.DueIsFollowedByAReport | internal/spokeagent/agent.go:214-294 | the answer "due" is followed by a report that the hub accepts, and that so frees the lease, if and only if the attempt failed, or its success could be recorded locally and the certificate is plausible to the hub |
| SpokeAgent.RunKeepsInv | internal/store/certstate.go:52-91 | in every run status failed means a streak of at least one, and a recorded hook error means an earlier issuance |
| SpokeAgent.CappedExactlyWhenItFits | internal/spokeagent/agent.go:204-210 | the backoff is the capped exponential for every outcome of the float conversion if and only if the product fits an int64 |
| SpokeAgent.DefaultFitsUpTo22 | internal/spokeagent/agent.go:204-210 | with one hour the product fits exactly up to a streak of 22 |
| SpokeAgent.FailuresAreSpaced | internal/spokeagent/agent.go:71-97 | over every run and across restarts, the k-th consecutive failure comes no earlier than the first plus the k - 1 capped backoffs, computed as float64, while their products fit |
| SpokeAgent.FailuresAreSpacedGeometrically | internal/spokeagent/agent.go:201-210 | hence at least retry * (2^(k-1) - 1) after the first while the cap does not bite, retry rounded as float64 |
| SpokeAgent.TotalBeforeCap | internal/spokeagent/agent.go:204-210 | the backoffs before the cap add up to the geometric series |
| SpokeAgent.OverflowRetriesAtOnce | internal/spokeagent/agent.go:204-210 | past the range a conversion to the least int64 has the next poll ask the hub at once |
| SpokeAgent.ReportsAreAccepted | internal/spokeagent/agent.go:165-183 | if every certificate issued in a run is plausible, no report of that run, hook retries included, fails the hub's validation |
| SpokeAgent.DeliveredPollAgrees | internal/spokeagent/agent.go:149-294 | once delivered, a poll's reports are all refused and change nothing, or leave the hub with the spoke's certificate, hook error and last error, and with its health if and only if the poll was neither a hook retry for a failed renewal nor a failure that could not be recorded locally |
| SpokeAgent.DeliveryInformsExactlyWhen | internal/spokeagent/agent.go:149-294 | delivery makes any hub row agree on the certificate, and on the health, if and only if the hub accepts the reports and they say it |
| SpokeAgent.LongLivedCertificateIsRefused | internal/hubapi/handlers.go:44-51 | a certificate of one nanosecond over 398 days is installed and reported, and the hub's row stays as it was |
| HubStore.Store.CreateSpoke | internal/hubstore/spokes.go:29-49 | spoke and first token together or, when either exists, nothing |
| HubStore.Store.DeleteSpoke | internal/hubstore/spokes.go:56-90 | the rows of the spoke in all five tables go, or it is not found |
| HubStore.Store.AddSpokeToken | internal/hubstore/spokes.go:98-112 | a token of an existing spoke is added unless any spoke has it |
| HubStore.Store.RemoveSpokeToken | internal/hubstore/spokes.go:122-153 | never the last token, never another spoke's |
| HubStore.Store.UpsertSpokeCert | internal/hubstore/spokecerts.go:28-104 | stored exactly when name, domains, override keys, spoke and every provider named check out, with the right refusal otherwise |
| HubStore.Store.RemoveSpokeCert | internal/hubstore/spokecerts.go:108-121 | only that assignment goes; observed state stays |
| HubStore.Store.AllSpokeTokens | internal/hubstore/spokes.go:263-282 | the token table grouped by owner, whatever the row order |
| HubStore.Store.AllSpokeCerts | internal/hubstore/spokecerts.go:126-169 | the certificate table grouped by spoke, whatever the row order |
| HubStore.Store.GetSpoke | internal/hubstore/spokes.go:170-188 | three reads with anything happening in between: exactly the tokens and certificates each found for the spoke, or not found |
| HubStore.Store.AllSpokeIDs | internal/hubstore/spokes.go:242-261 | every spoke id once, in any row order |
| HubStore.MergeSpokes | internal/hubstore/spokes.go:215-240 | one entry per id, with what the other two reads group under it, and nothing where they have nothing |
| HubStore.Store.UpsertDNSProvider | internal/hubstore/dnsproviders.go:17-34 | the provider is stored unless its name is empty |
| HubStore.Store.RemoveDNSProvider | internal/hubstore/dnsproviders.go:43-73 | refused while any certificate uses it, by default or by override |
| HubStore.Store.AllDNSProviders | internal/hubstore/dnsproviders.go:86-109 | the provider table, whatever the row order |
| HubStore.Store.InsertEnrollmentToken | internal/hubstore/enrolltoken.go:22-31 | an unredeemed row under a new secret |
| HubStore.Store.LookupEnrollmentToken | internal/hubstore/enrolltoken.go:46-58 | finds exactly unredeemed, unexpired rows and changes nothing |
| HubStore.Store.RedeemEnrollmentToken | internal/hubstore/enrolltoken.go:66-80 | marks the row redeemed exactly if it still is redeemable |
| Integrity.AllWritesKeepConsistent | internal/hubstore/spokes.go:29-153 | after every sequence of store methods: each spoke has a token, tokens and certificates have spokes, providers named exist, override keys are among the domains, names and domains are valid |
| Integrity.WriteKeepsTokens | internal/hubstore/spokes.go:114-153 | no single method leaves a spoke without a token |
| Integrity.WriteKeepsProviders | internal/hubstore/dnsproviders.go:36-73 | no single method leaves a certificate with a missing provider |
| Integrity.DeleteLeavesNothing | internal/hubstore/spokes.go:56-90 | nothing of the spoke remains in any of the five tables, and nothing else is touched |
| Integrity.DeleteThenCreate | internal/hubstore/spokes.go:51-90 | a deleted id can be created again, with only its new token |
| Integrity.AddThenRemoveToken | internal/hubstore/spokes.go:92-153 | removing an added token restores the database |
| Integrity.RefusedChangesNothing | internal/hubstore/spokes.go:29-153 | a method that does not succeed leaves the database as it was |
| Integrity.SucceedsExactlyWhen | internal/hubstore/spokes.go:29-153 | for every store method, the databases on which it succeeds |
| Integrity.RefusalSaysWhy | internal/hubstore/spokes.go:29-153 | the reason a refusal gives is true |
| Integrity.TokensAreRead | internal/hubstore/spokes.go:29-153 | the tokens read of each spoke after a method are those before, but for the one written or removed |
| Integrity.CertsAreRead | internal/hubstore/spokecerts.go:84-121 | an assignment read back is the one written, whole, in place of any of its name; no other changes |
| Integrity.ProvidersAreRead | internal/hubstore/dnsproviders.go:17-73 | a provider read back is the one written, in place of any of its name; no other changes |
| Integrity.SecretsAreRead | internal/hubstore/enrolltoken.go:22-80 | a secret is stored as minted and keeps all but the time of its use; deleting a spoke takes its secrets |
| Integrity.ObservedIsRead | internal/hubstore/spokes.go:56-90 | no method of the desired state touches observed rows, except that a deleted spoke takes its own |
| Integrity.RowsAreIndependent | internal/hubstore/certstate.go:42-243 | each certificate's row is the replay of its own statements, whatever happens to the others |
| Concurrency.SpokesAlwaysHaveTokens | internal/hubstore/spokes.go:92-153 | statement by statement, in every reachable state every spoke has a token |
| Concurrency.OwnerIsFixed | internal/hubstore/spokes.go:29-112 | a token row never changes owner while it exists, in any interleaving |
| Concurrency.ConsistentExactlyUnless | internal/hubstore/dnsproviders.go:43-73 | one step keeps referential integrity if and only if it is not one of the two late writes |
| Concurrency.CheckThenInsertRaces | internal/hubstore/spokes.go:98-112 | for any spoke and unused token there is a run of three steps that stores a token without its spoke |
| Concurrency.ScanThenDeleteRaces | internal/hubstore/dnsproviders.go:43-61 | for any unused provider and any certificate that names it there is a run of three steps that breaks integrity |
| Concurrency.NamesStayValid | config/config.go:333-351 | no certificate name with a slash ever reaches a snapshot, a handler or the observed table |
| Config.ValidateDomain | config/config.go:318-331 | accepts exactly non-empty domains without spaces or control characters that are not a bare wildcard |
| Config.DomainsExactly | config/config.go:318-331 | valid means non-empty, below a wildcard or not, without the white space and control characters of Unicode, by code point |
| Config.ValidateCertName | config/config.go:343-351 | accepts exactly single path components |
| Config.NameIsOneComponentExactly | config/config.go:333-351 | valid means that as a path, on either platform, the name leads from every directory to its own entry in it |
| Config.JoinKeyInjective | internal/hubapi/watchdog.go:78-94 | the key spoke/name determines both parts although spoke ids are unrestricted |
| Config.JoinKeyNeedsValidNames | config/config.go:333-351 | without the check on names two certificates can share a key |
| Snapshot.BuildState | internal/hubapi/server.go:49-85 | the snapshot has exactly the spokes read, their tokens and certificates and an index of those tokens; it fails exactly when a provider cannot be built |
| Snapshot.IndexTokens | internal/hubapi/server.go:55-64 | every token of the spoke is indexed to it, every other entry stays |
| Snapshot.BuildProviders | internal/hubapi/server.go:66-77 | every provider is built, or none is served |
| Snapshot.IndexRefinesEntries | internal/hubapi/server.go:54-64 | even of tables read at different moments, the index maps a token to a spoke if and only if the served spoke lists it |
| Snapshot.Authorize | internal/hubapi/auth.go:41-62 | one lookup and one loop give the verdict of a search through all spokes |
| Snapshot.SearchFindsOwner | internal/hubapi/auth.go:41-62 | the search finds the spoke the index names, in whatever order spokes are listed |
| Snapshot.AllowedMeansServed | internal/hubapi/auth.go:41-62 | allowed, 401 and 403 mean: served token and certificate, token nowhere, token but no such certificate |
| Snapshot.VerdictFollowsTables | internal/hubapi/auth.go:41-62 | the verdict as a function of the tables read: 401 if no known spoke owns the token, 403 if the owner has no such certificate, else allowed with the policy on file |
| Snapshot.BearerTokenExactly | internal/hubapi/auth.go:64-71 | the token is read from exactly the headers "Bearer " followed by a token |
| Snapshot.ConfiguredIsRead | internal/hubapi/server.go:49-85 | the certificates watched and listed are those the third read found for spokes of the first |
| Snapshot.DomainAuthorized | internal/hubapi/dns01.go:104-112 | exactly the domains of the certificate, up to case and a final dot |
| Snapshot.MatchesExactly | internal/hubapi/dns01.go:114-116 | two domains match if and only if they are equal character by character in lower case, one final dot aside |
| Snapshot.ResolveDNSProvider | internal/hubapi/dns01.go:126-134 | the first matching override in iteration order, else the default |
| Snapshot.FirstMatchIsAMatch | internal/hubapi/dns01.go:126-134 | the choice is an override that matches, or the default when none does |
| Snapshot.ResolutionIsOrderFree | internal/hubapi/dns01.go:118-134 | the choice does not depend on map order if and only if all matching overrides agree |
| Snapshot.DistinctKeysAreUnambiguous | internal/hubapi/dns01.go:118-134 | which is so when override keys stay distinct after normalisation |
| Snapshot.ResolvedProviderIsServed | internal/hubapi/dns01.go:126-134 | in a snapshot read at one moment from a consistent store every domain resolves to a provider in that snapshot |
| Relay.ResolvesAllExactlyWhen | internal/hubapi/dns01.go:126-134 | a certificate resolves every domain in every map order to one of some providers if and only if all it names are among them |
| Relay.AsksExactlyWhen | internal/hubapi/dns01.go:104-134 | authorised requests for a certificate ask for exactly its overrides' providers, and for its default one unless every domain is overridden |
| Relay.SnapshotServesExactlyWhen | internal/hubapi/dns01.go:64-79 | a snapshot of any reads resolves everything if and only if its fourth read found all that the certificates of its third name |
| Relay.SnapshotAnswersExactlyWhen | internal/hubapi/dns01.go:64-79 | the same for authorised requests and the providers that they can ask for |
| Relay.ReloadServesExactlyWhen | internal/hubapi/server.go:49-85 | in every run, what a reload publishes resolves everything if and only if no provider that its certificates name was deleted, and not stored again, between its third and fourth read |
| Relay.ReloadAnswersExactlyWhen | internal/hubapi/dns01.go:64-79 | the same for authorised requests and the providers that they can ask for |
| Relay.StraddlingReloadMissesProvider | internal/hubapi/dns01.go:71-74 | a run of consistent states that ends serving a certificate whose provider is missing |
| Relay.LaterSnapshotLacksProvider | internal/hubapi/dns01.go:64-74 | between the two loads of a request its certificate and provider can both be removed |
| EnrolmentProtocol.SingleUse | internal/hubapi/enroll.go:29-98 | in every interleaving a secret minted once wins at most one 200, which comes before the expiry it was minted with and hands out what was minted, and no deletion of the spoke came between |
| EnrolmentProtocol.WinsExactlyWhen | internal/hubstore/enrolltoken.go:66-80 | a redeem step answers 200 if and only if the secret is stored, unused and not expired at its clock reading |
| EnrolmentProtocol.AloneWinsExactlyWhen | internal/hubapi/enroll.go:40-98 | left alone, an enrolment answers 200 if and only if its secret is stored, unused, unexpired and of a served spoke; without a served spoke it uses nothing up |
| EnrolmentProtocol.EnrolledSpokeWasServed | internal/hubapi/enroll.go:29-39 | in every run, each 200 is for a spoke that an earlier snapshot served |
| EnrolmentProtocol.EachMintIsRedeemedOnce | internal/hubstore/enrolltoken.go:60-80 | between two 200s for one secret it was minted again |
| EnrolmentProtocol.RunKeepsInv | internal/hubapi/enroll.go:40-98 | every stored secret rests on a mint still in force and every 200 on an unexpired mint used once |
| Rotation.RotationContinuity | internal/onboard/plan.go:327-355 | in every run of the procedure, mixed with any other writes and reloads, the token the spoke presents is served at every step |
| Rotation.NewTokenAnchored | internal/hubapi/server.go:112-119 | after a reload begun since the token was added, with no older one under way, the token stays served |
| Rotation.ServedForGoodExactlyWhen | internal/hubapi/server.go:112-119 | a served token stays served in every continuation that spares it if and only if no reload under way has missed it |
| Rotation.StaleReloadCanDrop | internal/hubapi/server.go:112-119 | a reload that read too early can publish a snapshot without the token |
| Rotation.RevokedForGoodExactlyWhen | internal/onboard/plan.go:327-335 | a removed token that is not served stays refused in every continuation that does not store it again if and only if no reload under way has already read it |
| Rotation.RemovedTokenIsRefused | internal/hubstore/spokes.go:114-153 | in every run, once a reload begun after the removal is published with no older one under way, the token is refused from then on |
| Rotation.LateReloadRevives | internal/hubapi/server.go:112-119 | a reload that read the token before its removal can put it back into service |
| Onboard.ValidateCertRequest | internal/onboard/plan.go:60-94 | accepts exactly requests with all fields set, override keys among the domains and existing providers |
| Onboard.CheckedFallsShortExactly | internal/onboard/plan.go:54-94 | what it accepts the store accepts too, if and only if name and domains are well formed |
| Onboard.PlanEnrollment | internal/onboard/plan.go:272-311 | creates spoke, token and certificate, or nothing, except that a malformed certificate leaves exactly the spoke and token |
| Onboard.Plan | internal/onboard/plan.go:101-178 | adds a certificate under a token of the spoke, never replaces one, and lists exactly the certificates the hub then has |
| Onboard.PlanRotation | internal/onboard/plan.go:336-355 | the new token joins the old ones, which all stay |
| Legacy.Validate | config/legacy.go:55-113 | accepts exactly documents whose tokens are unique across spokes and whose certificates are well formed with known providers |
| Legacy.ValidateTokens | config/legacy.go:57-71 | one spoke's tokens: some, none empty, none used by this or an earlier spoke |
| Legacy.ValidateCerts | config/legacy.go:73-110 | one spoke's certificates: some, each valid, no name twice |
| Legacy.ValidateCert | config/legacy.go:79-109 | one certificate: name, domains, provider, override keys and override providers |
| Legacy.ValidCertIsStorable | config/legacy.go:79-109 | with a provider name that is not empty, what validates is what the store takes |
| Importer.ImportDocument | cmd/acme-hub/main.go:272-313 | for every map order, a validated document imports into an empty store with no step failing if and only if no provider is named by the empty string |
| Importer.ImportProviders | cmd/acme-hub/main.go:284-289 | all providers are stored, in any map order, unless one has the empty name |
| Importer.ImportSpokes | cmd/acme-hub/main.go:291-306 | every spoke of a validated document imports, in any map order |
| Importer.ImportSpoke | cmd/acme-hub/main.go:290-304 | one spoke with all its tokens and certificates, next to those already imported |
| Importer.ReadBack | internal/hubstore/spokes.go:215-282 | reading everything back gives the document: same providers, spokes, certificates, and tokens as a set |
| Importer.EmptyProviderNamePassesValidate | config/legacy.go:55-113 | a document that validates and that the store refuses |
| CertWriter.Disk.Call | internal/certwriter/certwriter.go:52-127 | a system call works, fails without effect, or never runs because the process died |
| CertWriter.MakeDirectories | internal/certwriter/certwriter.go:73-83 | wherever it stops, at most the empty version directory is new; an existing one keeps its files |
| CertWriter.FillTemporary | internal/certwriter/certwriter.go:136-173 | wherever it stops, only the temporary file differs; a write may stop after any byte |
| CertWriter.WriteAtomic | internal/certwriter/certwriter.go:136-173 | wherever it stops, only its own file and temporary file differ; on success the file holds exactly the data |
| CertWriter.WriteFiles | internal/certwriter/certwriter.go:85-103 | wherever it stops, only that version differs, with key, leaf and chain replaced in this order up to some point; on success all three |
| CertWriter.SwapSymlink | internal/certwriter/certwriter_unix.go:15-27 | current is the old or the new link at every point |
| CertWriter.SwapJunction | internal/certwriter/certwriter_windows.go:34-86 | current is the old link, an empty directory or the new link at every point |
| CertWriter.SwapCurrent | internal/certwriter/certwriter.go:115-121 | either platform's swap, with what it may leave behind |
| CertWriter.Write | internal/certwriter/certwriter.go:52-127 | for a new or reused name, wherever it stops: current moved only if the version is complete, the files of the version were replaced up to one of three points, no other version changed; undisturbed, it installs key, leaf and leaf + issuer; dying after the first or second rename leaves exactly that many files new |
| CertWriter.WriteIsSafeExactlyWhen | internal/certwriter/certwriter.go:66-121 | from an installed bundle, every way a Write may stop leaves a whole bundle under current if and only if its name is not the current one or at most one of the three files changes |
| CertWriter.TornWrite | internal/certwriter/certwriter.go:85-103 | otherwise a Write that dies between two renames leaves a mix of two bundles under current |
| CertWriter.StagesAreWholeExactlyWhen | internal/certwriter/certwriter.go:85-103 | the states between the renames are whole if and only if at most one file changes |
| CrashSafety.CurrentIsAlwaysWhole | internal/certwriter/certwriter.go:19-51 | after any history of installs, none under the name then current, and prunes, each stopped anywhere, current is absent (on Windows possibly an empty directory) or a directory with exactly the three files of one Write |
| CrashSafety.RoundsKeepTheLastThree | internal/certwriter/prune.go:28-76 | after any number of undisturbed rounds with increasing names exactly the last three versions remain, each whole, the newest current |
| CrashSafety.PruneKeepsLastThree | internal/certwriter/prune.go:45-76 | what Prune keeps after a round is exactly the last three names |
| Prune.RemoveAll | internal/certwriter/prune.go:65-74 | wherever it stops, only that version differs |
| Prune.ReadCurrentVersion | internal/certwriter/certwriter_unix.go:33-42 | the name current points at, empty when absent, an error when it is no link |
| Prune.RemoveOthers | internal/certwriter/prune.go:65-74 | wherever it stops, every kept version is whole; if it finishes, only those remain |
| Prune.SortedNames | internal/certwriter/prune.go:31-53 | the version names in increasing order, each with its rank |
| Prune.Prune | internal/certwriter/prune.go:28-76 | wherever it stops, the three newest names and the current one are whole; if it finishes, exactly those remain |
| Prune.PrunedExactly | internal/certwriter/prune.go:12-76 | a version stays, with its files, if and only if it is current or fewer than three names sort after it |
| Prune.PrunedIsSmall | internal/certwriter/prune.go:12-27 | current is never removed and at most four versions remain |
| VersionNames.NamesSortByTime | internal/certwriter/certwriter.go:66-72 | names with different seconds sort as strings in time order, whatever their random suffix, for four-digit years |
| VersionNames.NameGivesTime | internal/certwriter/certwriter.go:66-72 | a name's date and time fields read back as the time it was given |
| VersionNames.TailLess | internal/certwriter/certwriter.go:66-72 | names compare as strings by the first date or time field that differs |
| VersionNames.FieldsBeforeIsEarlier | internal/certwriter/prune.go:45-53 | and that field order is the order of the instants, leap years included |
| Junction.BuildMountPointBuffer | internal/certwriter/certwriter_windows.go:124-164 | the loops and 16-bit arithmetic give the Mount Point Reparse Data Buffer layout, and a target with a NUL is refused |
| Junction.AppendUnits | internal/certwriter/certwriter_windows.go:134-140 | each unit is appended as two bytes, low byte first |
| Junction.AppendHeader | internal/certwriter/certwriter_windows.go:154-163 | the sixteen header bytes |
| Junction.ParseMountPointBuffer | internal/certwriter/certwriter_windows.go:212-243 | the parser is the decoder, and on buffers of at most 16384 bytes never slices out of range |
| Junction.ReadJunctionTarget | internal/certwriter/certwriter_windows.go:200-244 | a stored buffer of at most 16384 bytes is decoded and never sliced out of range, a larger one is an error |
| Junction.RoundTripExactlyWhen | internal/certwriter/certwriter_windows.go:124-243 | reading back what was built returns every NUL-free target of up to 4089 units, and an error, never a wrong target, for a longer one |
| Junction.LayoutDecodes | internal/certwriter/certwriter_windows.go:212-243 | decoding returns the print name of any layout that fits |
| Junction.SubstituteNameIsTarget | internal/certwriter/certwriter_windows.go:124-164 | the substitute name, at the header's offset and length, is the target behind the NT prefix |
| Junction.NamesEndInNul | internal/certwriter/certwriter_windows.go:124-164 | tag, reserved bytes and the NUL after either name |
| Junction.HeaderDoesNotWrap | internal/certwriter/certwriter_windows.go:138-163 | for targets that fit, all five header lengths and offsets describe the path buffer without wrap-around |
| Junction.SliceWrapsExactlyWhen | internal/certwriter/certwriter_windows.go:212-243 | offset plus length stays in 16 bits for every accepted buffer if and only if buffers are below 64 KiB |
| Watchdog.State.Visit | internal/hubapi/watchdog.go:92-130 | one certificate's memory and event; no other key changes |
| Watchdog.State.VisitSpoke | internal/hubapi/watchdog.go:88-131 | the certificates of one spoke are added to those looked at |
| Watchdog.IndexCheckins | internal/hubapi/watchdog.go:71-81 | the index answers for every certificate as its own row does |
| Watchdog.State.Pass | internal/hubapi/watchdog.go:70-132 | every configured certificate is looked at exactly once against its own last checkin, in any map order; at most one event each |
| Watchdog.PassesFollowWatch | internal/hubapi/watchdog.go:70-132 | over every run of passes each certificate behaves as if it were watched alone |
| Watchdog.RunsAlternate | internal/hubapi/watchdog.go:115-130 | over every run the events of a certificate alternate strictly, starting with stale |
| Watchdog.AlarmsAlternate | internal/hubapi/watchdog.go:115-130 | the same for one certificate over all snapshots and clocks, with what is remembered |
| Watchdog.RunsAlarmExactlyWhen | internal/hubapi/watchdog.go:55-130 | over every run, the last pass tells that a configured certificate is stale if and only if it is overdue and not yet told, and that it recovered if and only if it is the other way round; overdue: no check-in for longer than the threshold, counted from the last one or from the first pass that saw none |
| Watchdog.AlarmsExactlyWhen | internal/hubapi/watchdog.go:92-130 | the same for one certificate over all snapshots and clocks |
| Watchdog.NotifiedExactlyWhen | internal/hubapi/watchdog.go:92-130 | after a pass a certificate stands as reported stale if and only if it is overdue |
| Watchdog.LastCheckinIsTheLatest | internal/hubapi/watchdog.go:71-81 | after any statements, what a pass takes for the last check-in is the hub's clock at the latest check-in of either kind |
| Watchdog.RunsGiveGracePeriod | internal/hubapi/watchdog.go:55-69 | a stale event of a never-reporting certificate needs an earlier pass, longer ago than the threshold, that saw it unreported, with no checkin seen since |
| Watchdog.GraceIsFreshExactlyWhen | internal/hubapi/watchdog.go:62-69 | from the pass that sees it unreported a certificate has its whole grace period if and only if no pass at an earlier time saw it so without seeing it checked in later |
| Watchdog.RunsGraceIsFreshExactlyWhen | internal/hubapi/watchdog.go:62-69 | the same over runs of passes over all certificates |
| Watchdog.SinceIsTheFirst | internal/hubapi/watchdog.go:99-112 | what is remembered is the clock of the first pass from which on the certificate was never seen checked in |
| Watchdog.ReaddedAlertsAtOnce | internal/hubapi/watchdog.go:99-123 | a certificate deleted before it reported and added again after the threshold alerts in the first pass that sees it |
| FleetStatus.AdminEntries | internal/hubapi/status.go:72-120 | exactly one entry per configured certificate, strictly increasing by spoke then name, with observed columns exactly when a row with that very spoke and name exists |
| FleetStatus.EntryTellsHistory | internal/hubapi/status.go:83-106 | after any statements, each line tells its certificate's own history: validity, serial and success of the latest success, health of the latest check-in, hook outcome of the latest hook report, empty where there was none |
| FleetStatus.IndexRows | internal/hubapi/status.go:73-80 | the index answers for every certificate as the observed rows do |
| FleetStatus.ListSpoke | internal/hubapi/status.go:83-106 | one entry for each certificate of the spoke, added to those listed |
| FleetStatus.ListingUnique | internal/hubapi/status.go:66-120 | the listing is determined by what is configured and observed, not by any iteration order |

## Left out

- HTTP, JSON, YAML, HTML, TLS, logging, flags, hook execution and the Windows service: input and output.
- ACME itself: an attempt is a step that ends in success or failure.
- SQLite's own workings, the timestamp text format, created_at and updated_at columns, and schema migration; a statement or transaction is one atomic step.
- Power-loss durability: the versions directory is never synced, so only process crashes with effects in order are modelled; the guarantee about current is per resolution of the link.
- File modes, access control lists and foreign files or plain files in the versions directory.
- Due.ClosedExactlyWhen: a maximum within 512 ns of the int64 limit, whose float64 no longer converts back, is treated as an unbounded integer.
- SpokeAgent.CappedExactlyWhenItFits: a retry interval of zero with a streak beyond 1024 (zero times infinity) counts as zero; the configuration replaces zero by one hour.
- SpokeAgent.FailuresAreSpaced: a crash in the middle of a poll appears as local writes that did not happen; the messages of such a poll are over-counted.
- Durations that saturate beyond 292 years in time.Sub: instants are unbounded integers.
- Junction.RoundTripExactlyWhen: works on UTF-16 units; pairing of surrogates in the conversion from and to Go strings is not modelled.
- Alerts.InStepExactlyWhen: orders alerts by the upserts that decided them; the notify hooks of overlapping requests may run in another order.
- A failing SQL statement: returns an error and takes no effect; one that took effect before its error appears as the effect of another connection.
- HubApi.Server.HandleDNS01: the request body and the provider's own work are not modelled beyond whether the latter succeeds.
- Onboard.Plan and Onboard.PlanEnrollment: generated tokens are parameters; text of the generated configuration is not modelled beyond the certificates it lists.
- Snapshot.Normalize: strings.ToLower is an arbitrary character mapping, so mappings that change the length of a string are not covered.
- The admin web interface: its handlers call the store methods modelled here.
