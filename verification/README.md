# nx-cache: a model of the remote cache server

nx-cache keeps build artifacts for Nx under their hashes. Around that simple job it has
several parts whose correctness is a matter of whole runs: a catalog that is written behind,
a long-poll channel that tells dashboards about changes, a token-bucket limiter and a login
lock-out that garbage-collect their tables, a write-once upload protocol with roll-back, and a
cleaner that works from two listings. This project models those parts in Dafny and proves what
they are for.

The parts whose Go code changes fields in place are classes here (`Catalog.Object`,
`LongPoll.Hub`, `Notifying.NotifyingStore`, `PollHandler.Server`, `Limiter.IPLimiter`,
`LoginGate.Gate`, `Storage.Memory`, `Artifacts.Handler`, `Cleanup.Cleaner`,
`Metrics.Operation`). Each of their methods is proved against a function on values: the
catalog's mutators against `CatalogSpec.Apply`, the hub against `LongPoll.Notified` and
`LongPoll.HubRun`, the limiter against `Limiter.Allow`, and so on. What these functions do is in turn
proved in terms of fields, positions and numbers alone (`CatalogLaws`, and the lemmas whose names end in
Mean, Means, Counts, Codes or Spells), so that a slip made in a method and its function alike does not go unnoticed. Records that Go holds
behind pointers (`DayStat`, `ipBucket`, `loginAttempt`, subscriber channels) are objects
here too, so that a shallow clone of the catalog, for instance, would not verify.

The properties over runs are proved about state machines built from the same functions. An
event is one critical section or one call into a backend, and events of any number of requests
interleave freely:

| machine | events | main results |
|---|---|---|
| `CatalogRuns` | boot, crash, mutators, the phases of Flush, failed writes with or without effect | the dirty flag tells the truth; Close persists everything; the store follows history; counters are conserved |
| `Polling` | mutate, notify, close; the phases of a poll and of the read behind it | no lost wake-up; no lost update; a quiet client is up to date; when a page covers its tag |
| `LimiterRuns` | calls from any address at any time | eviction is unobservable exactly for a bounded burst; admissions are bounded; a well-spaced client is never refused |
| `LoginRuns` | allow, success, failure with arbitrary eviction choices, unread forms | at most maxFails + k - 1 failures per window with k requests at a time; the table stays bounded |
| `ArtifactRuns` | the phases of PUT and GET with faults in between | an acknowledged PUT lasts; every object is accounted for |

Time is an integer or a real handed to each step, floats are reals, and Go's map order and
`select` choice are arbitrary choices.

## Where the code falls short of the plain statement

* A configuration-only `UpdateTaskInfo` changes an entry but is not announced, because
  `TaskInfo.Empty` ignores the configuration (internal/store/store.go:27-29).
  `Polling.SilentChangeExactlyWhen` proves that this, on a present entry with another
  configuration, is the only silent change. It concerns the store's interface: the one caller
  (cmd/server/main.go:157-160) skips infos that are empty in that sense.
* The dashboard page takes its entity tag after reading the data
  (internal/httpserver/server.go:192-201), so its tag can be newer than its data.
  `Polling.PageCoversExactlyWhen` proves when it is not, `Polling.StalePageWaits` what a poll
  with such a tag would do, and `Polling.PageOrderCanMissUpdates` gives a run. Within this
  program nothing compares that tag: the dashboard handler evaluates no validators, and the
  entries and stats are served under other addresses (internal/httpserver/server.go:91-93).
  Those two handlers take the state first and are safe.
* Evicting idle buckets can be seen from outside when the burst exceeds two minutes' refill
  (internal/httpserver/access.go:68-74). `LimiterLimits.UnobservableExactlyWhen` proves the
  condition exact and gives the run.
* The login lock-out can be forgotten before its time: a full table is cut to half its limit in
  map order, locked-out addresses included (internal/httpserver/login.go:79-85, 111-118).
  `LoginRuns.LockedOutForgottenExactlyWhen` proves when. Requests that were allowed before the
  lock fell still get their check, so k concurrent requests make it maxFails + k - 1 failures
  instead of maxFails; `LoginRuns.BoundIsReached` shows that this bound is exact.
* The SQL filter and the in-memory filter differ on entries with a configuration and on entries
  that lack a project or a target (internal/store/store.go:233-236, 394-404);
  `Filter.FiltersAgreeExactlyWhen` proves the condition exact, and `Filter.TwoQueriesDecide`
  reduces the question to two queries for every entry.
* A class token with a marker in front of its base utility and none at its end changes its form
  in the marker translation (utils/shadcn-templ.go:55-71). `ClassMerge.MarkerRoundTrip` is the
  exact condition.
* A catalog document from elsewhere may hold an entry under another key than its hash; cleanup
  then deletes by hash and such an entry can survive every run
  (internal/cleanup/cleanup.go:93-99, 119-124). `Cleanup.CleanedExactlyWhen` proves when
  nothing is left to do.

## Model

| member | source | states |
|---|---|---|
| `CatalogRuns.DirtyFlagTellsTruth` | internal/store/object.go:136-169 | In every reachable state after a good Load, a clear dirty flag means that an unfinished flush carries exactly the current memory, and without one the stored snapshot reads back as the memory |
| `CatalogRuns.StepKeepsTruth` | internal/store/object.go:136-169 | Every mutator, flush phase, failed write, crash and boot preserves that invariant |
| `CatalogRuns.ClosePersistsEverything` | internal/store/object.go:129-134 | After any run, an undisturbed successful Close leaves the memory in the store, and a restart resumes with it |
| `CatalogRuns.SnapshotsFollowHistory` | internal/store/object.go:136-163 | Every document the store has ever held reads back as a memory state that really occurred, at a recorded position of the history, and the positions never go back |
| `CatalogRuns.RestartLosesNothingAcknowledged` | internal/store/object.go:70-103 | After a crash at any point, Load restores exactly the state of the last document written, which is no older than the clone of the last flush that succeeded |
| `CatalogRuns.FailedLoadWritesNothing` | internal/store/object.go:142-145 | A process whose Load failed never changes the stored document, whatever it does |
| `CatalogRuns.CountersAreConserved` | internal/store/object.go:390-411 | Memory, stored document and clone in flight keep each total equal to the sum of its daily counters, and total hits at least the hits of the entries, over flushes, crashes and reloads without Seed |
| `CatalogRuns.CountersFromEmpty` | internal/store/object.go:70-103 | The same for every run that starts with an absent document |
| `CatalogRuns.CountersCountTheLife` | internal/store/object.go:390-411 | Over one life, flushes of whatever outcome included, each total and each counter of each calendar day is what it was plus the number of its own events |
| `CatalogRuns.FlushIsARun` | internal/store/object.go:136-163 | A flush with mutators between clone and write is the run of its phases, with the outcome the contract of the method Flush gives |
| `CatalogLaws.ApplyHasEffect` | internal/store/object.go:195-377 | Each mutator field by field: which counter rises in total and on the day that contains the moment, hits and times of the entry, kept creation time, every task field by name, and what stays |
| `CatalogLaws.CountersCountEvents` | internal/store/object.go:390-411 | After any mutators each total and each daily counter has risen by exactly the number of its own events |
| `CatalogSpec.ApplyConserves` | internal/store/object.go:195-245 | Every mutator but Seed keeps each total equal to its daily sum and at least the hits held by entries |
| `CatalogSpec.CleanMeansUnchanged` | internal/store/object.go:290-369 | A mutator that does not set the dirty flag has changed nothing |
| `CatalogSpec.ApplyKeepsKeyed` | internal/store/object.go:195-377 | Every mutator keeps each entry under its own hash |
| `CatalogSpec.RestoreEncode` | internal/store/object.go:70-103 | Loading what a flush wrote gives back the cloned state, whatever memory held before |
| `Catalog.Object.Load` | internal/store/object.go:70-103 | A missing document keeps the memory, an unreadable one sets loadFailed and changes nothing else, a readable one replaces totals, days (null records count as absent) and, when present, entries |
| `Catalog.Object.Flush` | internal/store/object.go:136-163 | With any mutators running between clone and write, the document written is the catalog at the moment of the clone, the flag afterwards tells whether they changed anything, and a failed write leaves the flag set |
| `Catalog.Object.CloneLocked` | internal/store/object.go:171-193 | The clone has the catalog's value and shares no day record with it |
| `Catalog.Object.UpsertEntry` | internal/store/object.go:195-222 | Overwrites the size, keeps the first creation time and older task fields, counts one store in total and on its day, sets the flag |
| `Catalog.Object.RecordHit` | internal/store/object.go:224-237 | One more hit on the entry (created when absent), in total and on its day |
| `Catalog.Object.RecordMiss` | internal/store/object.go:239-245 | One more miss in total and on its day, hits, stores, other days and entries untouched |
| `Catalog.Object.Delete` | internal/store/object.go:290-301 | Exactly the given hashes are gone, counters stay; an empty list changes nothing, not even the flag |
| `Catalog.Object.EnsureEntry` | internal/store/object.go:331-345 | Adds a missing entry, fills in a missing size, otherwise changes nothing and leaves the flag |
| `Catalog.Object.UpdateTaskInfo` | internal/store/object.go:347-369 | Non-empty fields replace those of an existing entry; an absent hash changes nothing |
| `Catalog.Object.SeedEntry` | internal/store/object.go:371-377 | Replaces one entry without counting |
| `Catalog.Object.BumpLocked` | internal/store/object.go:390-411 | Bumps one total and the counter of one day in place, creating the day's record when it is absent or null, and no other day changes |
| `Catalog.Object.ListOlderThan` | internal/store/object.go:276-288 | The entries created before the cutoff, each once and newest first, and no others |
| `Catalog.Object.AllEntries` | internal/store/object.go:379-388 | Every entry once, newest first, whatever key it sits under |
| `Catalog.Object.List` | internal/store/object.go:247-274 | Page and total belong to one listing that holds every matching entry once, newest first: the total is its length, the page its clipped slice |
| `Listing.PagesAreAPrefix` | internal/store/object.go:258-273 | Consecutive pages neither overlap nor leave gaps |
| `Listing.PageHolds` | internal/store/object.go:258-273 | Twenty-five entries unless a positive limit is given, from the offset on, as many as there are |
| `Listing.ListsMeans` | internal/store/object.go:379-388 | No newer entry stands behind an older one, every wanted entry is there, nothing else is, and their number is that of the keys |
| `LongPoll.HubRunWithSlot` | internal/longpoll/longpoll.go:41-61 | After any run of notifications and closings, a subscriber's slot is full exactly when the hub was open at registration and anything happened since, and the others are as if it had not been there |
| `LongPoll.HubRunVersion` | internal/longpoll/longpoll.go:41-61 | Versions and timestamps never fall; the version rises with anything that happens while the hub stays open, and never after closing |
| `LongPoll.Hub.Notify` | internal/longpoll/longpoll.go:41-61 | Raises the version by one, keeps the timestamp monotone and fills every slot; a closed hub stays as it is |
| `LongPoll.Hub.Close` | internal/longpoll/longpoll.go:165-179 | Closes once and fills every slot |
| `LongPoll.Hub.IsFresh` | internal/longpoll/longpoll.go:87-109 | Without validators or with a malformed date alone never; with a date alone exactly when the state is not younger; with a well-formed If-None-Match exactly when it names the current tag, whatever the date |
| `LongPoll.FreshMeans` | internal/longpoll/longpoll.go:87-109 | The same as a law about the test itself |
| `LongPoll.Hub.WaitOrModified` | internal/longpoll/longpoll.go:119-162 | A client without validators or with outdated ones is answered at once with the state at entry and the hub unchanged; one that is up to date is modified exactly when it was woken by a token, then with the newest state; on every way out the hub is as if this poll had never subscribed |
| `Etag.EtagMatches` | internal/longpoll/longpoll.go:200-214 | The scan answers whether the header is a star or some comma-separated part is the server's tag up to padding and weakness |
| `Etag.DecidesWeakComparison` | internal/longpoll/longpoll.go:200-214 | For every well-formed If-None-Match value (section 13.1.2 of RFC 9110), tags containing commas included, the answer is the weak comparison of section 8.8.3.2 with the hub's current tag |
| `Etag.OwnTagMatches` | internal/longpoll/longpoll.go:70-76 | A tag sent back matches exactly while version and timestamp are unchanged |
| `Etag.ServerTagReads` | internal/longpoll/longpoll.go:70-76 | The tag reads as quote, decimal version, hyphen, decimal Unix time, quote |
| `Polling.NoLostWakeUp` | internal/longpoll/longpoll.go:119-179 | In every reachable state a waiting poll holds a token exactly when the version rose or the hub was closed since it registered; a woken poll of an open hub returns a higher version; the subscribers are exactly the polls inside the wait |
| `Polling.OutdatedPollIsAnswered` | internal/longpoll/longpoll.go:119-126 | A poll without a valid copy is answered at once with the current state and does not subscribe |
| `Polling.UpToDatePollWaits` | internal/longpoll/longpoll.go:119-130 | A poll with a valid copy subscribes and waits |
| `Polling.DisturbedPollGetsThrough` | internal/longpoll/longpoll.go:149-154 | In every reachable state a waiting poll that something happened to can take its token, read the newest state and leave |
| `Polling.NoLostUpdate` | internal/httpserver/server.go:203-241 | If responses lack, in their list, sums or counters, a mutation whose notification has completed, the next poll whose If-None-Match holds any of their tags, weakened or in a list, is answered as modified without waiting |
| `Polling.NoLostUpdateOnOwnTag` | internal/httpserver/server.go:203-241 | The same for a response's tag sent back as it came |
| `Polling.QuietMeansUpToDate` | internal/httpserver/server.go:203-241 | With no writer between mutation and notification and the hub open, a client whose tag is still fresh has read exactly the present catalog |
| `Polling.StepKeepsAccounts` | internal/store/notifying.go:35-89 | Every announced mutation has a version, every notifying one is announced or still pending, and the data of each response covers what its version announced; every step keeps this |
| `Polling.SilentChangeExactlyWhen` | internal/store/notifying.go:59-81 | A mutation that is not announced changes the catalog if and only if it is a configuration-only update of a present entry with another configuration |
| `Polling.RevalidationIsFresh` | internal/longpoll/longpoll.go:87-109 | A request carrying an earlier response's tag is fresh exactly while the hub is in that response's state |
| `Polling.PageCoversExactlyWhen` | internal/httpserver/server.go:192-201 | For every run, the dashboard page contains what its tag announces if and only if nothing written after its list was read is announced before its headers are taken; an unmoved version is a sufficient test |
| `Polling.StalePageWaits` | internal/longpoll/longpoll.go:119-130 | Whenever it does not, a poll carrying the page's tag waits although the page lacks an announced mutation |
| `Polling.PageOrderCanMissUpdates` | internal/httpserver/server.go:192-201 | On a fresh server one miss between read and headers makes such a page |
| `Notifying.NotifyingStore.UpsertEntry` | internal/store/notifying.go:35-41 | The mutation takes place and is in place when the one notification is sent |
| `Notifying.NotifyingStore.Delete` | internal/store/notifying.go:59-65 | The same, without notification for an empty list |
| `Notifying.NotifyingStore.UpdateTaskInfo` | internal/store/notifying.go:75-81 | The same, without notification when the info is empty |
| `Notifying.NotifyingStore.Perform` | internal/store/notifying.go:35-89 | Every mutation is performed, then announced exactly when it calls for it |
| `PollHandler.Server.Entries` | internal/httpserver/server.go:203-241 | The data contains every mutation made before it was read, those during the wait included; while the hub is open, one announced after the state was captured makes the hub's version higher than the reply's; a stale request always gets data |
| `PollHandler.AnnouncedRaisesVersion` | internal/store/notifying.go:29-33 | One announced mutation in a run raises the version of an open hub |
| `Limiter.IPLimiter.AllowIP` | internal/httpserver/access.go:35-66 | The bucket holds what was left plus the rate times the time passed, up to the burst, a new one is full; admitted exactly with a token or more, which is taken; the clock is never set back; the others stay, except those idle over two minutes in a table of more than 10,000 |
| `Limiter.AllowServes` | internal/httpserver/access.go:35-74 | The same as a law about the limiter on values |
| `Limiter.NewConfig` | internal/httpserver/access.go:22-33 | Off for a rate of zero or less; a given burst is kept, a missing one is the rate rounded down but at least one |
| `LimiterRuns.EvictionIsUnobservable` | internal/httpserver/access.go:35-74 | For calls in time order and a burst of at most 120 times the rate, collecting and never collecting give the same answers to every call |
| `LimiterLimits.UnobservableExactlyWhen` | internal/httpserver/access.go:68-74 | Eviction is unobservable on all time-ordered runs if and only if the burst is at most 120 times the rate |
| `LimiterLimits.RememberingRefuses` | internal/httpserver/access.go:35-66 | On the witness run the limiter that forgets nothing refuses the last call |
| `LimiterLimits.CollectingAdmits` | internal/httpserver/access.go:59-74 | On the same run the collecting limiter admits it |
| `LimiterRuns.AdmissionsAreBounded` | internal/httpserver/access.go:35-66 | While an address is not evicted, its admissions are at most the burst plus the rate times the advance of its bucket's clock, whatever the order of timestamps |
| `LimiterRuns.BoundHoldsUnderEviction` | internal/httpserver/access.go:35-74 | For calls in time order and a bounded burst, the collecting limiter admits at most the burst plus the refill of the whole span |
| `LimiterRuns.TokensStayInRange` | internal/httpserver/access.go:35-66 | Tokens stay between zero and the burst |
| `LimiterRuns.RefusedCallsAreFree` | internal/httpserver/access.go:47-65 | For calls in time order a refused call is as good as never made: without it every other call gets the same answer, with collection too when the burst is bounded |
| `LimiterRuns.WellSpacedNeverRefused` | internal/httpserver/access.go:35-66 | A client whose calls are at least 1/rate apart is never refused, with or without eviction |
| `LoginGate.Gate.AllowIP` | internal/httpserver/login.go:37-53 | Lets in an unknown address, one whose lock has passed and one below the limit, and nobody else; a known address is marked as seen and nothing else changes |
| `LoginGate.Gate.RecordFailure` | internal/httpserver/login.go:64-97 | Counts the failure after making room if needed, starts the count anew after an expired lock, and locks when the limit is reached |
| `LoginGate.FailureCounts` | internal/httpserver/login.go:79-96 | One more than the failures remembered, or one when a lock has run out or the entry was swept; from the limit on the lock ends lockFor from now |
| `LoginGate.FailureKeepsOthers` | internal/httpserver/login.go:64-97 | Other addresses keep their entries, and a table below its limit keeps all of them |
| `LoginGate.FullTableIsHalved` | internal/httpserver/login.go:79-85 | A new address that finds the table full of entries no sweep removes leaves half the limit and itself |
| `LoginGate.Gate.Success` | internal/httpserver/login.go:55-62 | Forgets the address and no other |
| `LoginGate.Gate.GcLocked` | internal/httpserver/login.go:99-109 | Removes exactly the entries whose lock has passed and that were not seen for the idle time |
| `LoginGate.Gate.DropLocked` | internal/httpserver/login.go:111-118 | Leaves exactly the given number of entries, unchanged, whichever the map order picks |
| `LoginRuns.AtMostMaxFailsPerWindow` | internal/httpserver/login.go:37-118 | In any window no longer than the lock, an address that never succeeds, is never dropped for room, and has at most k requests between their allow and their check gets at most maxFails + k - 1 failed checks, whatever other addresses do otherwise; one request at a time makes that maxFails |
| `LoginRuns.BoundIsReached` | internal/httpserver/login.go:37-97 | For every k there is such a run with exactly maxFails + k - 1 failed checks in one window |
| `LoginRuns.LockedOutForgottenExactlyWhen` | internal/httpserver/login.go:64-88 | A failure of another address can make the gate forget a locked-out one if and only if the failing address is new and the swept table is still full |
| `LoginRuns.SpacedOverRuns` | internal/httpserver/login.go:64-97 | Under the same three conditions any maxFails + k consecutive failures of an address span more than the lock time |
| `LoginRuns.LocksRunOut` | internal/httpserver/login.go:37-97 | After any run whatever an address is let in again once its last failure is longer ago than the lock, and always before maxFails failures |
| `LoginRuns.FailureKeepsLocked` | internal/httpserver/login.go:64-97 | A failure of one address leaves every other locked-out address alone unless it is dropped for room |
| `LoginRuns.TableStaysBounded` | internal/httpserver/login.go:64-82 | The table never exceeds its limit |
| `Storage.Memory.Put` | internal/storage/storage.go:67-82 | Stores exactly the declared number of bytes under a new hash or nothing; short, long, failing and repeated uploads are told apart |
| `Storage.PutMeans` | internal/storage/storage.go:67-82 | When each outcome occurs and what becomes of the objects, bytes and time included |
| `Storage.Memory.Delete` | internal/storage/storage.go:94-101 | Exactly the given hashes are gone |
| `Storage.Memory.List` | internal/storage/storage.go:103-111 | Every object once with its size and modification time |
| `Artifacts.Handler.Put` | internal/cacheapi/handler.go:56-144 | The answer for every kind of request and fault; 200 means the object and its entry are added, anything else that both stores are as before, except for an object whose roll-back failed |
| `Artifacts.AnswersMean` | internal/cacheapi/handler.go:56-144 | Each status exactly under its own condition, 200 for a well-formed PUT of a new hash without faults among them |
| `Artifacts.ValidHashCodes` | internal/cacheapi/handler.go:52-54 | One to 128 ASCII letters, digits, dots, underscores and hyphens, the first a letter or digit |
| `Artifacts.Handler.Get` | internal/cacheapi/handler.go:146-183 | Returns the stored bytes and counts a hit, or answers 404 and counts a miss; an invalid hash and a failing backend, answered with 500, count nothing |
| `ArtifactRuns.AcknowledgedPutLasts` | internal/cacheapi/handler.go:86-143 | A PUT answered 200 is never undone: to the end of any run the backend serves exactly its bytes and the catalog gives their length |
| `ArtifactRuns.OneWinnerPerHash` | internal/storage/storage.go:67-82 | Of all PUTs of one hash at most one is answered 200 |
| `ArtifactRuns.GoodPutSucceeds` | internal/cacheapi/handler.go:86-143 | A well-formed PUT of a new hash that is left alone is answered 200 and leaves its bytes and its entry |
| `ArtifactRuns.ObjectsAreAccountedFor` | internal/cacheapi/handler.go:86-143 | The backend holds its former objects untouched, and besides exactly the bytes of the PUTs answered 200, still under way, or failed in their roll-back |
| `ArtifactRuns.RollBackDropsOwnObject` | internal/cacheapi/handler.go:126-133 | A roll-back deletes exactly one object, the one its own PUT stored, and every other PUT keeps its own |
| `ArtifactRuns.StepKeepsOwnership` | internal/cacheapi/handler.go:86-143 | Every step keeps each stored object tied to the one PUT that stored it |
| `ArtifactRuns.StepKeepsCatalogued` | internal/cacheapi/handler.go:126-183 | Every step keeps an entry with the stored size for every PUT answered 200 |
| `Cleanup.Cleaner.Run` | internal/cleanup/cleanup.go:80-127 | Removes from both stores exactly the hashes that are too old by catalog or by a known modification time and counts each once; a fault returns zero, and only a failing catalog delete comes after objects are gone |
| `Cleanup.Cleaner.FindExpired` | internal/cleanup/cleanup.go:85-115 | The union of the two listings, each hash once |
| `Cleanup.Cleaner.CollectListed` | internal/cleanup/cleanup.go:104-114 | Adds the hashes of old objects that are not listed yet and never one with a zero time |
| `Cleanup.SweepMeans` | internal/cleanup/cleanup.go:80-127 | What a run leaves in either store is exactly what is not too old by the catalog or by a known modification time, unchanged |
| `Cleanup.CleanedExactlyWhen` | internal/cleanup/cleanup.go:80-127 | Once the expired hashes are gone nothing is expired at the same cutoff if and only if every old entry sat under a hash that was found |
| `Cleanup.KeyedIsCleaned` | internal/cleanup/cleanup.go:80-127 | Which holds for every catalog keyed by hash, as the mutators keep it |
| `Cleanup.RunTwice` | internal/cleanup/cleanup.go:80-127 | A second run at the same moment removes what is then expired: nothing on a catalog keyed by hash |
| `TaskLabel.LabelSpells` | internal/store/store.go:31-44 | Project, target and configuration joined by colons; without a configuration the first two, without a project the target, without a target the project |
| `TaskLabel.ParsesExactlyWhen` | internal/nxartifact/inspect.go:396-406 | A token parses if and only if it begins with two non-empty parts, and the rest behind a second colon is the configuration |
| `TaskLabel.ParseOfLabel` | internal/store/store.go:31-44 | Parsing a label gives the task back exactly when project and target are non-empty and colon-free, for any configuration |
| `TaskLabel.LabelOfParse` | internal/nxartifact/inspect.go:396-406 | The label of a parsed token is the token, except exactly for a lone trailing colon |
| `TaskLabel.CleanTokenRoundTrip` | internal/nxartifact/inspect.go:390-406 | Every cleaned token that parses is its own label |
| `TaskLabel.CleanTokenCutsTail` | internal/nxartifact/inspect.go:390-394 | A tail of punctuation is cut off, and all of it |
| `TaskLabel.StrippedCodes` | internal/nxartifact/inspect.go:390-394 | Which visible ASCII characters stay: letters, digits, the five exceptions and the symbols |
| `Filter.MatchesQueryMeans` | internal/store/store.go:394-404 | The trimmed query is empty or stands, in whatever ASCII case, in the hash, project, target, kind or label |
| `Filter.SqlSelectsMeans` | internal/store/store.go:233-236 | The same for SQL, with `project:target` in place of the label |
| `Filter.LikeIsContainment` | internal/store/store.go:427-430 | The escaped LIKE pattern matches a string exactly when it contains the query, up to ASCII case |
| `Filter.FiltersAgree` | internal/store/store.go:394-404 | Without a configuration, and for colon-free queries or entries with project and target, SQL and memory select the same entries |
| `Filter.TwoQueriesDecide` | internal/store/store.go:394-404 | For every entry the two filters agree on all queries if and only if they agree on its label and on `project:target` |
| `Filter.FiltersAgreeExactlyWhen` | internal/store/store.go:233-236 | For entries whose hash and kind hold no more colons than project and target together, they agree on every query if and only if project and target are given and no configuration is |
| `Filter.DerivedKindIsPlain` | internal/nxartifact/inspect.go:130-161 | Entries with a valid hash and a kind that is a fixed word or the trimmed, lower-cased target are such entries |
| `Filter.NormalisingTwice` | internal/store/object.go:252-257 | Lower-casing and trimming the query before MatchesQuery does it again makes no difference |
| `ClassMerge.LastTopLevelColon` | utils/shadcn-templ.go:36-51 | The last colon outside all brackets, or -1 when there is none |
| `ClassMerge.MarkerMoves` | utils/shadcn-templ.go:55-71 | With variants up to the last colon outside brackets and a base behind it, a marker at the end moves in front of the base and back |
| `ClassMerge.OthersStay` | utils/shadcn-templ.go:55-71 | Tokens without the marker in that place stay as they are |
| `ClassMerge.MarkerRoundTrip` | utils/shadcn-templ.go:55-71 | To v3 and back is the identity if and only if the token ends in a marker or has none behind its last top-level colon |
| `ClassMerge.ClassListRoundTrip` | utils/shadcn-templ.go:73-82 | Up to white space a class list survives the round trip if and only if each of its tokens does |
| `ClassMerge.MapTokens` | utils/shadcn-templ.go:73-82 | Applies the function to every token, leaving texts without any marker as they are |
| `ClassOrder.Reorder` | utils/shadcn-templ.go:92-117 | The walk from the right keeps, of each class, its last occurrences up to the number that survived |
| `ClassOrder.ReorderRestoresOrder` | utils/shadcn-templ.go:92-117 | If two or more survivors are among the input tokens, the result has exactly their multiset, joined by single blanks, at increasing input positions that are exactly the last occurrences; otherwise the merge comes back unchanged |
| `ClassOrder.ReorderIsDeterministic` | utils/shadcn-templ.go:92-117 | Two or more survivors, all among the input tokens, give the same result in every order |
| `Metrics.Operation.Observe` | internal/metrics/metrics.go:47-65 | The window becomes the last 512 of itself and the new sample, a negative duration counts as zero, and only positive byte counts are added |
| `Metrics.Operation.ObserveAll` | internal/metrics/metrics.go:47-65 | After any observations the buffer holds exactly the last 512 durations in order of arrival |
| `Metrics.WindowStep` | internal/metrics/metrics.go:55-63 | Cutting the window before or after appending gives the same window |
| `Metrics.LastNIsSuffix` | internal/metrics/metrics.go:55-63 | The window is a suffix of what was observed, as long as possible |
| `Metrics.Summarize` | internal/metrics/metrics.go:79-89 | P50 and P95 are the samples of rank (m-1)*50/100 and (m-1)*95/100 among the m samples, both zero without samples; P50 is at most P95 and the samples stay in order of arrival |
| `Metrics.PercentileRank` | internal/metrics/metrics.go:91-97 | The percentile read off a sorted copy is a sample with at least k+1 samples at or below it and m-k at or above it, k = (m-1)*p/100 rounded down |
| `Metrics.RankIsUnique` | internal/metrics/metrics.go:91-97 | Only one value has a given rank, so that fixes the percentile |
| `Metrics.PercentilesAreOrdered` | internal/metrics/metrics.go:91-97 | A higher percentile is never smaller; P50 is at most P95 |

## Left out

- The S3 backend: foreign calls; `Storage.Memory` stands for every backend.
- The SQLite store apart from the search filter: its SQL is executed by a library, and it differs from the in-memory catalog in details.
- JSON: the snapshot document is a value with optional maps and null day records. The day field repeated inside a day record is not kept.
- Calendar formatting: a day is a function of the time, with an injective number instead of its text.
- Integer width: counters and versions are unbounded, so wrap-around of 64-bit counters is not modelled.
- Floating-point rounding in the limiter: tokens and seconds are reals.
- CatalogRuns.FailedLoadWritesNothing: Load is one event and happens only at start-up, as in the server's main program; a Load in the middle of a life is covered by the method's contract alone.
- Polling: effective timeouts and which ready case `select` picks are arbitrary, so a timeout does not mean that nothing changed.
- If-Modified-Since beyond its own comparison: dates have a resolution of one second, so the update guarantee is stated for entity tags.
- Stats, kind counts and the seven-day cut: sums and sorting with no state of their own; `Polling` only records when they read.
- The order of entries with equal creation times.
- Letters beyond ASCII in the filters: Go folds them and LIKE does not; the model leaves them alone in both.
- Error codes of the HTTP layer beyond the cache API, HEAD, the upload's tee into the inspector, metrics and the extra notification after a request.
- A PUT's opportunistic cleanup, the cleaner's ticker and minimum gap between runs.
- Agreement of catalog and backend at every moment: interleaved GET, PUT and cleanup do not preserve it.
- Reading gzip and tar archives and guessing tasks from terminal output: heuristics.
- The merge of Tailwind classes itself, flattening of class arguments and variable syntax: library behaviour and pure list plumbing.
- sort.Slice and slices.Reverse: replaced by an insertion and a reversal with the same result.
- Components, pages, login forms, cookies, logging and configuration loading.
