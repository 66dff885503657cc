# Verified model of stackpit's decision logic

Stackpit ingests error events, filters and rate-limits them, writes them to a database, files
issues into external trackers and mails digests. This project models the parts of it that are
decisions over loops, state and arithmetic, and proves what they promise. `dafny verify
dfyconfig.toml` checks everything.

- **Ingest filter.** `Glob` (the backtracking matcher), `SlidingWindow`, `RateLimit` and
  `FilterEngine` (the scoped rate limiter, its buckets, its eviction), `FilterRules` (the rule
  loop and deterministic sampling).
- **Offline backfills.** `EventTable` (keyset pages), `ClientReportBackfill`, `TraceBackfill`.
- **Tracker filing.** `Text`, `Utf8`, `Forge` (URL parsers), `IssueLinks` (repository keys),
  `Trackers` (targets, `link_issue`, whole runs of calls).
- **Run protocols.** `Shutdown` (listeners, signal, ceiling, writers), `Digest`, `Envelope`.
- **Codecs.** `Vlq`, `AssetVersion`, `FrameGroups`, `Placeholders`.

Code that changes state in place is a class or a method with loops, tied by its contract to a
function on values; whole-run theorems are about those functions. `Shutdown` is a transition
system, and "every interleaving" means every sequence of enabled actions.

Properties that hold only under a condition come with the condition made exact where that is
possible, and with a lemma that shows what happens outside it:

- The glob loop tests "same byte" before "`*`", so a `*` byte in the text eats a `*` of the
  pattern. Agreement with the meaning of globs holds on a text for all patterns if and only if
  the text has no `*`, and for a pattern on all texts if and only if the pattern has none.
- The sliding window uses second 0 as "never advanced". The limiter agrees with its reference
  on all runs from a first clock reading if and only if that reading is not 0.
- The sweep that runs when more than 100 000 windows survive eviction forgets recent counts. The
  limit is exact on all runs over a set of scopes if and only if the set has at most 100 000
  members; beyond that, no scope exceeds twice its limit in a minute, and some run attains that.
- `normalize_repo_url` cuts an `ssh://` URL at the first `@`. Host and path survive if and only
  if the URL is not an ssh URL without userinfo and with an `@` in its path.
- After an issue was opened, repeating the call opens no second one if and only if the forge's
  answer could be read, the insert succeeded and no other link had that row. A row in the way
  is always another project's.
- A link with a bare number is read through its URL. A GitHub or Forgejo issue page gives the
  repository's key if and only if the repository is not named `-`; a GitLab link gives it if and
  only if the URL's path, cut at its first `/-/`, is the namespace path.
- An acknowledged event is in the database, or given up by a failed flush, after every exit of a
  kind if and only if the 5 second ceiling did not fire and the writers returned within their 4
  seconds. Otherwise some run loses one.
- A digest schedule reports an instant to a project exactly when the cycle that moved
  `last_sent` past it had it in the database, asked for the project and found room in the
  channel, and once more for every failed `last_sent` update. An organisation-wide schedule can
  thus skip a project; a project's own schedule cannot.

Where the code and its documentation differ, the model follows the code. The rollup's stored
quantity is capped at the `i64` maximum, not only at the `u64` maximum of the accumulator.

## Model

| member | source | states |
|---|---|---|
| Glob.GlobMatchImpl | src/filter/glob.rs:17-45 | the two-pointer loop, which remembers only the latest star, decides exactly `CodeMatches`, a recursive reading with full choice at every star; it terminates, within `Paid(n+1, n+m+1)` rounds |
| Glob.PaidIsProduct | src/filter/glob.rs:23-38 | that bound is `(n+1)*(n+m+1)` for a text of n and a pattern of m bytes |
| Glob.LaterStartNeverArrivesEarlier | src/filter/glob.rs:31-34 | why backtracking to the latest star is enough: a later start never reaches a pattern position earlier than a literal run did, stars met literally included |
| Glob.GlobMatchAny | src/filter/glob.rs:2-14 | a list matches when some pattern of it matches the lower-cased text |
| Glob.Sound | src/filter/glob.rs:17-45 | every reported match is a match, for every pattern and text |
| Glob.ExactOnText | src/filter/glob.rs:24-28 | on a text, the loop agrees with the meaning of globs for all patterns if and only if the text holds no `*` byte |
| Glob.ExactOnPattern | src/filter/glob.rs:24-28 | for a pattern, the loop agrees on all texts if and only if the pattern holds no `*` |
| Glob.StarByteIsNotAWildcard | src/filter/glob.rs:24-28 | pattern `*a` matches text `*ba` and the loop rejects it |
| Glob.WildcardBytes | src/filter/glob.rs:24-28 | `*` alone means any text, and is read so on a text without `*`; `?` alone is any single byte |
| SlidingWindows.SlidingWindow.Advance | src/util/sliding_window.rs:17-37 | clearing the passed buckets in place, one by one or all at once |
| SlidingWindows.SlidingWindow.Count | src/util/sliding_window.rs:39-41 | the sum of the 60 buckets |
| SlidingWindows.SlidingWindow.Increment | src/util/sliding_window.rs:43-46 | one more, saturating, in the bucket of the second |
| SlidingWindows.AdvanceRepresents | src/util/sliding_window.rs:17-37 | after an advance the buckets still hold, second by second, the increments of the last 60 seconds |
| SlidingWindows.IncrementRepresents | src/util/sliding_window.rs:43-46 | an increment records one instant and adds exactly one to the count |
| SlidingWindows.CountIsRecent | src/util/sliding_window.rs:39-41 | the bucket sum is the number of increments of the last 60 seconds |
| FilterEngines.Throttle.Allow | src/util/throttle.rs:20-27 | a call is granted when the interval since the last grant has passed, and only a grant moves that instant |
| FilterEngines.GrantsAreApart | src/util/throttle.rs:20-27 | over any calls, whatever the clock does, two grants are at least an interval apart |
| FilterEngines.AllowEach | src/util/throttle.rs:20-27 | the same played out call by call on a throttle |
| FilterEngines.FilterEngine.CheckRateLimit | src/filter/engine.rs:262-309 | the method over window objects changed in place does exactly one `Check` of the value-level limiter |
| FilterEngines.FilterEngine.EvictStaleRateWindows | src/filter/engine.rs:313-330 | both sweeps, under the throttle, on the map of windows |
| FilterEngines.FilterEngine.ApplyData | src/filter/engine.rs:125-129 | reloading limits leaves every window alone |
| RateLimit.MeetsReference | src/filter/engine.rs:262-330 | over every run, limits reloaded at will, the limiter with eviction gives the answers of a windowless reference: admit exactly when the scope's own admissions of the last 60 seconds leave room; a limiter that never evicts gives the same answers |
| RateLimit.FewScopesNeverPrune | src/filter/engine.rs:320-329 | a run over at most 100 000 scopes never reaches the tighter sweep |
| RateLimit.ExactIffFewScopes | src/filter/engine.rs:320-329 | all runs over a finite set of scopes get the reference answers if and only if the set has at most 100 000 members |
| RateLimit.NeverOverLimit | src/filter/engine.rs:292-300 | no key, project or global scope admits more than its limit in any 60 seconds |
| RateLimit.ResolvesByPriority | src/filter/engine.rs:273-285 | a request spends from its key's window if the key has a limit, else from its project's if that has one, else from the global one, and from none if that limit is 0 |
| RateLimit.KeyLimitHolds | src/filter/engine.rs:273-300 | over every run, a key with a limit of its own is admitted exactly while fewer than that many of its requests were admitted in the last 60 seconds, so no 60 seconds see more, whatever the project's and the global limit are |
| RateLimit.ProjectLimitHolds | src/filter/engine.rs:273-300 | the same for a project's limit, over the requests of its keys that have none of their own, together |
| RateLimit.GlobalLimitHolds | src/filter/engine.rs:273-300 | the same for the global limit, over the requests with neither, together |
| RateLimit.ZeroIsNoLimit | src/filter/engine.rs:283-285 | a limit of 0 admits and leaves every window alone |
| RateLimit.ScopesAreIsolated | src/filter/engine.rs:275-281 | the answers a scope gets are those it would get if no other scope sent anything |
| RateLimit.AgreesIffClockStarted | src/util/sliding_window.rs:18-21 | runs from a first clock reading agree with the reference if and only if the reading is not 0 |
| RateLimit.ClockZeroRejectsTooMuch | src/util/sliding_window.rs:18-21 | a count of second 0 is still held against a request at second 1000 |
| RateLimit.NeverOverTwiceLimit | src/filter/engine.rs:313-330 | with the tighter sweep running at will, no scope admits more than twice its limit in any 60 seconds |
| RateLimit.SweepForgetsRecentCounts | src/filter/engine.rs:322-329 | over every set of more than 100 000 scopes some run admits a scope with limit 1 twice in one minute, and its answers are not the reference's |
| RateLimit.TwiceTheLimitIsAttained | src/filter/engine.rs:322-329 | so the factor 2 is attained, whenever the eviction throttle starts |
| RateLimit.CountNeverOverflows | src/util/sliding_window.rs:39-46 | whatever the clock and the limits do, the unchecked `u32` sum never overflows |
| FilterRules.CheckRules | src/filter/engine.rs:223-247 | the loop returns the verdict of the first rule that drops, and accepts if and only if none does |
| FilterRules.OrderDoesNotMatter | src/filter/engine.rs:223-247 | accept or drop does not depend on the order of the rules |
| FilterRules.MoreRulesDropMore | src/filter/engine.rs:223-247 | rules added anywhere never turn a drop into an accept |
| FilterRules.RaisingRatesKeeps | src/filter/engine.rs:233-243 | raising sample rates never drops a kept event |
| FilterRules.SamplingIsLowestRate | src/filter/engine.rs:233-243 | all matching sample rules act exactly as one with the lowest rate |
| FilterRules.FullRateKeepsAll | src/filter/engine.rs:233-243 | sample rates of 1 keep every event |
| FilterRules.OperatorsExactly | src/filter/rules.rs:117-132 | the operators on single texts, stated on characters equal up to the case of ASCII letters |
| FilterRules.InExactly | src/filter/rules.rs:125-130 | the list operators compare with each comma-separated piece without the white space around it |
| FilterRules.FieldsReadTheirOwn | src/filter/rules.rs:64-81 | each field reads its own attribute of the event and no other; a tag field reads the first tag of its key |
| FilterRules.DecidesExactly | src/filter/engine.rs:223-247 | a rule drops only events that have its field with a fitting value; a sample rule exactly the ids whose 64-bit hash exceeds its share of the largest one |
| EventTable.NextPage | src/cli/migrate.rs:37-49 | the rows past the last key of a page are exactly the rows behind the page |
| EventTable.LessExactly | src/cli/migrate.rs:39-41 | keys are ordered by their first difference, a proper prefix first |
| ClientReportBackfill.HourBucketBounds | src/cli/migrate.rs:114 | the truncating division puts a timestamp, of either sign, within an hour of its bucket, on the side of 0 |
| ClientReportBackfill.AddKeepsGroupBy | src/cli/migrate.rs:116-121 | saturating step by step is capping the true sum once |
| ClientReportBackfill.AccumulateAll | src/cli/migrate.rs:95-125 | for every non-zero page size each report is read once and the map is the group-by of all their outcomes |
| ClientReportBackfill.UpsertOutcomes | src/queries/client_reports.rs:73-113 | each key's capped quantity is added to its row, created if missing; other rows stay |
| ClientReportBackfill.Database.BackfillClientReportOutcomes | src/cli/migrate.rs:77-137 | completed: the rollup has a row for each project, hour, category and reason some stored report mentions, holding their summed quantity capped at the `i64` maximum, whatever it held before, and the marker is set; failed or already done: nothing changes |
| ClientReportBackfill.GroupByIsRollup | src/cli/migrate.rs:112-121 | the group-by the loops build is that rollup, column by column |
| ClientReportBackfill.GroupByIsUnique | src/cli/migrate.rs:93-127 | the reports determine the rollup, so the page size cannot matter |
| ClientReportBackfill.EachReportOnce | src/cli/migrate.rs:98-104 | the reports read are exactly those with a payload and a non-empty id, each once |
| TraceBackfill.EventStore.CommitPage | src/cli/migrate.rs:51-66 | one transaction of updates by id fills exactly the rows of the page |
| TraceBackfill.EventStore.BackfillTraceOpAndStatus | src/cli/migrate.rs:32-71 | stopped after any number of commits, the table is the original with its first pending rows filled, and the count is how many; finished, every pending row is filled |
| TraceBackfill.FillTouchesOnlyPending | src/cli/migrate.rs:39-40 | only transactions whose op was NULL change |
| TraceBackfill.RowsAreFilled | src/cli/migrate.rs:39-65 | each of those gets the op and status its payload decodes to, empty where there is none, and keeps its other columns; the rows counted are those transactions |
| TraceBackfill.CrashResumeEquivalence | src/cli/migrate.rs:30-31 | any interrupted runs and a finishing one leave the table of one uninterrupted run, and their counts add up to the rows pending at the start |
| TraceBackfill.InterruptedRuns | src/cli/migrate.rs:32-71 | the same played out on a store, with any chunk sizes and interruptions |
| Utf8.DecodeEncode | src/forge.rs:135 | every text is recovered from its UTF-8 bytes |
| Utf8.EncodedShortest | src/forge.rs:135 | the encoding of a character is the shortest form of section 4 of RFC 3629 |
| Forge.SpellingsAgree | src/forge.rs:98-155 | every spelling of a repository, URL with any scheme, user and port or `git@host:path`, with or without `.git` and trailing slashes, derives the coordinates of its host and path |
| Forge.DerivesExactly | src/forge.rs:119-155 | a spelled repository derives, on GitHub and Gitea, its host, owner and repository if and only if the path is those two; on GitLab its host and encoded path; elsewhere an error |
| Forge.NoHostUrl | src/forge.rs:120-123 | a URL without a host is refused as such, whatever its path |
| Forge.NoPathUrl | src/forge.rs:124-127 | a URL that ends with its host is refused as such |
| Forge.NormalizeKeepsCoordinates | src/forge.rs:216-234 | normalising a spelling keeps its coordinates |
| Forge.NormalizeKeepsExactly | src/forge.rs:229-231 | normalising keeps host and path if and only if the URL is not an ssh URL without userinfo and with an `@` in its path |
| Forge.HostIgnoresPath | src/forge.rs:236-262 | for every scheme, authority and two paths, the hostname is the same |
| Forge.GitlabPathRoundTrip | src/forge.rs:157-161 | a GitLab path is recovered from its percent-encoding, which holds neither `/` nor `#` |
| Forge.PlainPathsStay | src/forge.rs:157-161 | a path is its own encoding if and only if it holds only letters, digits, `-`, `_` and `.` |
| IssueLinks.KeysIdentifyRepositories | src/trackers.rs:42-52 | derived references have a non-empty key; keys are equal exactly when owner, repo and path are, so the two shapes never collide |
| IssueLinks.QualifiedIdsIdentifyIssues | src/trackers.rs:59-64 | qualified ids are equal exactly when repository key and issue number are |
| IssueLinks.StoredKeyIsRecovered | src/queries/issue_links.rs:30-37 | a stored link points back at the repository it was filed into |
| IssueLinks.LegacyOwnerRepoAgrees | src/queries/issue_links.rs:79-99 | a bare-number GitHub or Forgejo link gives, through its issue page's URL, the key computed today if and only if the repository is not named `-` |
| IssueLinks.DashRepositoryIsMissed | src/queries/issue_links.rs:79-87 | issue 7 of `https://github.com/acme/-`, stored as a bare number, gives another key than the target's |
| IssueLinks.LegacyGitlabExactly | src/queries/issue_links.rs:72-99 | a bare-number GitLab link behind any URL gives the key computed today if and only if the URL's path, cut at its first `/-/`, is the namespace path |
| IssueLinks.LegacyGitlabAgrees | src/queries/issue_links.rs:79-87 | so a GitLab issue page behind `/-/` gives it, however deep the namespace |
| IssueLinks.OldGitlabPageIsNotRecognised | src/queries/issue_links.rs:89-99 | and a page without `/-/` is read as an owner and a repository, a key no GitLab target has |
| Trackers.HostsMatchExactly | src/trackers.rs:67-74 | two hosts match if and only if they are equal up to ASCII case, or one is the other behind `api.` |
| Trackers.MatchesFieldByField | src/trackers.rs:77-94 | an integration and a repository match if and only if kind, forge tag and derived reference belong together and the hosts match |
| Trackers.ResolveMatchingTrackers | src/trackers.rs:99-129 | the nested loops return exactly the pairs whose organisation, kind, exclusion, forge and host fit |
| Trackers.TargetCanFile | src/trackers.rs:233-264 | the chosen target is such a pair of the named integration, and the named repository if one is named |
| Trackers.NamedTargetResolves | src/trackers.rs:260-265 | a call that names a repository finds a target if and only if some usable pair of its integration has that repository |
| Trackers.ChoiceExactly | src/trackers.rs:233-264 | a call that names no repository finds a target if and only if exactly one pair fits; none, several, or a name none bears is each refused as such |
| Trackers.GatesExactly | src/trackers.rs:197-231 | a call passes the gates if and only if its integration is a tracker of the organisation, licensed, with a usable credential and a base URL, and the issue exists; otherwise the error names the first thing missing |
| Trackers.PostsExactly | src/trackers.rs:197-336 | a call posts if and only if it passes the gates, has a target, no link of the issue and integration names its repository or none, and neither the address check nor the forge refuses |
| Trackers.FiledLink | src/trackers.rs:358-381 | the link stored carries the issue, the integration, the repository key with `#` and the forge's number, and the forge's URL |
| Trackers.TrackerStore.LinkIssue | src/trackers.rs:190-390 | the call returns and leaves behind exactly what `File` says: answered by a stored link, failed, or posted and stored |
| Trackers.TrackerStore.InsertLink | src/queries/issue_links.rs:107-138 | a conflicting link is not stored, any other is appended |
| Trackers.OnlyResolvedTargetsArePosted | src/trackers.rs:197-336 | an issue is opened only past every gate and into a pair that fits field by field: the named integration, not excluded, and a repository of the project with its tag, on its host; one issue for that repository's key |
| Trackers.ChangesExactly | src/trackers.rs:286-381 | a call opens an issue exactly when it posts, and stores a link exactly when moreover the answer was read, the insert succeeded and no row was in the way |
| Trackers.ConflictsAreForeign | src/queries/issue_links.rs:107-138 | a row in the way of a new link belongs to another project |
| Trackers.AtMostOneIssuePerRepository | src/trackers.rs:190-390 | over every run of serial calls, configuration changing freely, if each posted call's answer is read and inserted, at most one issue is opened per project, fingerprint, integration and repository key, and none where an earlier link names the repository or none |
| Trackers.FileSerially | src/trackers.rs:190-390 | the same played out call by call on a store |
| Trackers.RefilingIsIdempotent | src/trackers.rs:288-318 | filing again under any later configuration opens nothing: a target of the same repository key is answered by the link stored first, an unresolvable target by some stored link |
| Trackers.RespellingOpensNothing | src/trackers.rs:288-318 | respelling the repository's URL between two calls (https, ssh, `git@host:`, user, port, `.git`, slashes) opens no second issue |
| Trackers.LostLinkOpensAnother | src/trackers.rs:358-381 | if the link was not stored, the same call opens a second issue |
| Trackers.RepeatsAreSafeExactlyWhen | src/trackers.rs:288-381 | after a call that opened an issue, repeating it opens nothing whatever the forge does, if and only if its link was stored |
| Shutdown.StepKeepsInv | src/server.rs:705-759 | every action keeps the control, request, event and writer invariants |
| Shutdown.OnlyFlushesMoveEvents | src/writer/mod.rs:200-290 | only a successful flush stores events and only a failed one gives them up; either takes the first messages of one queue, and nothing else leaves a queue |
| Shutdown.WriterStopsLast | src/server.rs:733-753 | in every interleaving the writers are stopped only after every listener finished or 5 seconds after the flag was set |
| Shutdown.CeilingsExactly | src/server.rs:742-758 | the ceiling can fire exactly from 5 seconds after its sleep started, and the main task can leave writers behind exactly from 4 seconds after they were told |
| Shutdown.OneEndingRaisesTheFlag | src/server.rs:733-739 | a listener that ended, however it ended, has raised the flag for the rest, or the serving main task can collect it now and thereby does |
| Shutdown.ShutdownCanFinish | src/server.rs:740-759 | from every reachable state the server can still be driven to its exit, however many listeners and writers hang |
| Shutdown.NoAckAfterStop | src/server.rs:750-753 | unless the ceiling fired, no 200 is issued and nothing is queued after the writers were stopped |
| Shutdown.AcknowledgedIsFlushed | src/server.rs:698-704 | unless the ceiling fired, once the writers returned every acknowledged event is in the database or was given up by a failed flush |
| Shutdown.SafeExactlyWhen | src/server.rs:740-759 | every exit of a kind leaves each acknowledged event flushed or given up if and only if the ceiling did not fire and the writers returned in time |
| Shutdown.ForcedExitCanLoseAnAck | src/server.rs:740-753 | with the ceiling fired, an event can be acknowledged behind the sentinel and never be flushed |
| Shutdown.SlowWriterCanLoseAnAck | src/server.rs:754-759 | with the ceiling not fired, a writer that overruns its 4 seconds loses an acknowledged event too |
| Digests.DigestTask.RunDigestCycle | src/background.rs:161-269 | the loop over the due schedules queues and stores what `Step` says for each of them |
| Digests.SchedulesAreIndependent | src/background.rs:175-268 | in the loop each schedule moves and reports by its own step; the others reach it only through the room they leave in the shared channel, an input per schedule and project |
| Digests.LoopSendsExactly | src/background.rs:175-268 | in one cycle an enabled schedule whose interval has passed and whose data was built queues exactly one digest per active project with room, over the window since `last_sent`, and moves to now exactly when its update is stored and something was taken or nothing was active; every other schedule stays as it is |
| Digests.NeverEarly | src/queries/alerts.rs:334-344 | over every run no window is shorter than the interval, and a disabled schedule queues nothing and does not move |
| Digests.ReportedExactly | src/background.rs:175-268 | over every run of any schedule, an instant is reported once for each digest whose `last_sent` update was lost, and once more exactly when the cycle that passed it had it stored, asked for the project and found room |
| Digests.AtMostOnce | src/background.rs:176-268 | so with stored updates each instant is reported to each project at most once, exactly when told in passing; organisation-wide schedules included |
| Digests.WindowsAreDisjoint | src/background.rs:175-268 | with stored updates no two digests of one project overlap, and all lie between the first and last `last_sent` |
| Digests.ExactlyOnce | src/background.rs:175-267 | a project schedule reports every instant up to `last_sent` in exactly one queued digest if it was stored when its window was passed, and never otherwise, full channels and failed queries included |
| Digests.NeverLost | src/background.rs:261-267 | failed updates included, it loses none of them, and reports one exactly once if and only if every digest that told it had its update stored |
| Digests.ClocksRunForward | src/queries/alerts.rs:334-344 | a clock that never runs backwards keeps windows from inverting |
| Digests.IntervalsRunForward | src/queries/alerts.rs:334-344 | so does a non-negative interval, whatever the clock does |
| Digests.LostUpdateRepeats | src/background.rs:261-267 | a digest whose `last_sent` update failed is repeated |
| Digests.FullChannelSkipsProject | src/background.rs:231-267 | an organisation-wide schedule that got one event through never reports that window to a project the channel had no room for |
| Envelope.Resolve | src/endpoints/envelope.rs:41-77 | the loop that drains the attachments produces exactly the plan and counts the filtered events |
| Envelope.Writer.SendEnvelope | src/writer/handle.rs:191-240 | the whole envelope is queued or nothing is, and a refusal leaves the byte counter as it was |
| Envelope.Handle | src/endpoints/envelope.rs:41-94 | the queue grows by the plan or not at all |
| Envelope.AttachmentsAllOrNothing | src/endpoints/envelope.rs:53-72 | queued events are the unfiltered ones in order; the attachments go once to one event, each under that event's id with its own name and data, or nowhere; with an envelope id that event is the first unfiltered one bearing it, without one the sole event |
| Envelope.PlanWeighs | src/writer/handle.rs:207-211 | the bytes reserved are those of the kept payloads, and of the attachments once if they have an event to go to |
| Vlq.VlqEncode | scripts/sourcemap-test/main.py:94-106 | the loop emits the digits of the number, sign first |
| Vlq.EncodeSegment | scripts/sourcemap-test/main.py:109-110 | a segment is the concatenation of its numbers |
| Vlq.SegmentRoundTrip | scripts/sourcemap-test/main.py:94-110 | decoding a segment by section 6 of ECMA-426 gives back the numbers, of any size and sign |
| Vlq.UniquelyDecodable | scripts/sourcemap-test/main.py:109-110 | no two lists of numbers share a segment |
| AssetVersion.Fnv1a | build.rs:20-26 | the loop is the fold of the FNV-1a step |
| AssetVersion.Version | build.rs:36-43 | hashing assets in turn is hashing their concatenation |
| AssetVersion.StepInverts | build.rs:22-23 | every step is a bijection on the 64-bit state |
| AssetVersion.OneDifferenceChangesVersion | build.rs:20-26 | two streams of one length that differ in exactly one byte have different versions |
| AssetVersion.BoundariesAreInvisible | build.rs:36-43 | moving bytes across an asset boundary does not change the version |
| AssetVersion.LetterAVector | build.rs:20-35 | the one-letter test vector of the draft |
| FrameGroups.GroupFrames | src/domain.rs:206-227 | the groups flatten back to the frames in order, runs have at least two frames and only library frames, and no two neighbours are both library |
| FrameGroups.GroupingIsUnique | src/domain.rs:200-205 | it is the only such grouping |
| Placeholders.RewritePlaceholders | src/db/mod.rs:65-76 | the peeking loop changes to `$` exactly the `?` directly before an ASCII digit |
| Placeholders.TranslateSql | src/db/mod.rs:86-96 | the runtime variant equals the full rewrite on every text |
| Placeholders.ScanFindsPlaceholders | src/db/mod.rs:87-90 | the scan of the UTF-8 bytes fires exactly when the rewrite would change a character |
| Placeholders.RewriteIsIdempotent | src/db/mod.rs:65-76 | the rewrite keeps the length, puts `$` for each `?` directly before an ASCII digit and nothing else, and a second rewrite changes nothing |

## Left out

- HTTP handlers, extractors, templates, localisation, login, licences, SSRF checks and secret encryption: their outcomes are inputs of the model.
- SQL text and database drivers: a table is a sequence of rows in key order, and an update is atomic where the source uses one transaction.
- Payload decompression and JSON decoding: a stored payload stands for what the decoders extract from it.
- The other tiers of the event check (discarded fingerprints, inbound filters, environments, user agents, IP blocks): single lookups.
- Lower-casing of glob inputs: a parameter of the matcher.
- FilterRules.CheckRules: hash fraction and rates are reals, so rounding and NaN are not modelled; `contains` with an empty value, on which the source panics, is outside its domain; comparisons are on characters, not bytes.
- FilterEngines.Throttle.Allow: one caller at a time, so the compare-and-exchange cannot lose.
- RateLimit.MeetsReference: requests are decided one after another, as the shard lock makes them per window.
- ClientReportBackfill.Database.BackfillClientReportOutcomes: the project id's cast to `u64` and back is the identity and is left out; the multi-row chunks of the upsert are one loop.
- Trackers.AtMostOneIssuePerRepository: concurrent calls for one issue can both post; the source accepts that.
- Trackers.TrackerStore.LinkIssue: issue titles, bodies and states, and log lines; stored links are in insertion order.
- Shutdown.AcknowledgedIsFlushed: a listener that finished has no request left in flight, and a batch taken from the queue is flushed, retried or given up as a whole; aggregation flushes are not modelled.
- Digests.ExactlyOnce: of a digest's contents only the instants of activity are modelled; the channel's capacity is an input.
- Envelope.Writer.SendEnvelope: payload compression before weighing, and the choice of a writer; an event's body stands for its payload and log entries.
- Vlq.SegmentRoundTrip: the 32-bit range limits of the standard's decoder, which unbounded Python integers ignore.
- Reading the assets and printing the version in hexadecimal.
