# RFGuard detection engine: model and proofs

RFGuard watches streams of RFID reader events and raises alerts. This project models its detection
engine, the bounded in-memory stores the engine feeds, and the administrative operations that reset
them, as one sequential state machine, and proves what holds for every input and every run.

## How the model is laid out

- `model.dfy` holds the records. Instants and durations count nanoseconds; instant 0 is Go's zero time.
  A `Clock` gives what each `time.Now()` of one call shows, one reading per place (`Site`) in the code.
- `window.dfy`, `dedupe.dfy`, `cooldown.dfy`, `alert_store.dfy`, `metrics_store.dfy`, `reader_state.dfy`,
  `engine.dfy` and `server.dfy` hold the classes, with the fields that the Go code updates in place. Each
  method is proved against a function or relation on values.
- `detection.dfy` states one call of `ProcessEvent` on values (`Step`); `engine_run.dfy` iterates it with
  configuration changes, restarts and clears. Theorems about runs are about these, and
  `Engines.Engine.ProcessEvent` and `Servers.Server.Execute` carry them over to the objects.
- The remaining files hold the theorems: `variance.dfy`, `window_history.dfy`, `text.dfy`, `keys.dfy`,
  `access.dfy`, `sanitizer.dfy`, `noninterference.dfy`, `interference.dfy`, `engine_history.dfy`,
  `measures.dfy`, `engine_reconfigured.dfy`, `engine_duplicates.dfy`, `engine_properties.dfy`,
  `sending.dfy`, `engine_calls.dfy`, `engine_schedule.dfy`, `engine_alerts.dfy`, `alert_fields.dfy`,
  `engine_skew.dfy` and `coherence.dfy`.

Map iteration order is never fixed: where it can be observed (which of several oldest readers is evicted,
which of several ids that trim alike survives) the specification is a relation, and theorems hold for
every outcome it allows.

## Where the code does less than its documentation says

- The repository's `README.md:163` and `README.md:213` say that duplicates are suppressed within
  `dedupe_window`. The key contains the timestamp after clamping, so a resubmitted event whose stamp is
  replaced by two different clock readings is not recognised. `EngineSkew.SkewedDuplicateIsAdmitted` gives
  the exact condition on the event and the two readings.
- `README.md:162` says that out-of-order timestamps are clamped within the skews. The code replaces them by
  the current time (`EngineSkew.ClampedStamp`), and a skew that is not positive bounds nothing:
  `EngineSkew.ClampBounds` states when the bound holds. Windows evict by the first entry only, so what they hold is characterised exactly by
  `WindowHistory.LiveFromFirstNotOvertaken`.
- A longer window that a configuration change adds later starts empty, so it can report fewer attempts than
  a shorter one; `WindowHistory.LateWindowNesting` and `WindowHistory.NestingNeedsCreationOrder` say exactly
  when.
- Keys are joined with `|`, and streak keys share a map with window keys, so readers can disturb each other:
  one can silence another's events or alerts. `Interference.IndependentIffNeverDisturb` says for exactly
  which pairs of ids this can happen in a run of normalised events, for each detection configuration.
- Equal clock readings can make the metrics store evict the reader it has just updated;
  `MetricsStore.NewestSurvives` says exactly when it cannot.
- The API's sanitiser can change access decisions about events when reader ids in a posted policy have
  surrounding blanks; `Sanitizer.SanitizingPreservesDecisions` says exactly when it cannot.

## Model

| member | source | states |
|---|---|---|
| Variance.Recentre | internal/engine/window.go:92-115 | moving the centre of a sum of squared deviations changes it by a closed form, the algebra on which the one-pass recurrence rests |
| Variance.WelfordStep | internal/engine/window.go:103-110 | from the mean and squared deviation of a prefix, one turn of the recurrence gives those of the prefix with the next gap |
| Variance.VarianceSign | internal/engine/window.go:92-115 | the population variance is never negative, and is zero exactly when all values are equal |
| Variance.VarianceByMoments | internal/engine/window.go:92-115 | the variance times the count is the sum of the squares less the count times the square of the mean, and the mean times the count is the sum |
| Variance.SumsJoin | internal/engine/window.go:92-115 | sums and sums of squared deviations gather every value |
| Window.WelfordUpdate | internal/engine/window.go:105-108 | the loop's assignments are one step of the recurrence |
| Window.VarianceDelta | internal/engine/window.go:92-115 | the one-pass loop returns the two-pass population variance of the nonnegative gaps from `start` on, whatever lies before `start` |
| Measures.GapMeaning | internal/engine/window.go:100-103 | a gap carries the earlier stamp to the later one in seconds, and is zero iff the later arrival bears no later stamp |
| Measures.SecondsMeaning | internal/engine/window.go:76-89 | seconds are nanoseconds over a thousand million; whole seconds are rounded down |
| Measures.EntriesMeaning | internal/engine/engine.go:128 | an entry bears its event's stamp, UID and result: counts of failures, sets of UIDs and gaps over a window's entries are those of the events |
| Measures.MetricsAreDeclared | internal/engine/window.go:68-90 | a window's metrics are those declared on the events behind its entries: their number, failures, distinct UIDs, rate, ratios and variance of lapses |
| Measures.LiveFromOldest | internal/engine/engine.go:125-128 | a window holds a reader's events from the first whose stamp no later arrival's has passed by more than the duration |
| Window.TimingVarianceSign | internal/engine/window.go:92-115 | a window's timing variance is never negative, and zero exactly when all its gaps are equal or it has fewer than two |
| Window.TallyMeaning | internal/engine/window.go:15-22 | the incremental counters are the number of entries, the failures among them, and exactly the nonempty UIDs with their multiplicities, none zero |
| Window.TallyAppend | internal/engine/window.go:32-41 | counting an entry in gives the counters of the longer sequence |
| Window.TallyDrop | internal/engine/window.go:49-58 | counting the oldest entry out gives the counters of the rest, through any order of adds and evictions |
| Window.WindowState.constructor | internal/engine/window.go:24-30 | a new window is valid and empty |
| Window.WindowState.Add | internal/engine/window.go:32-41 | the entry joins the live ones at the end; the counters stay those of the live entries; storage stays at most twice the live count |
| Window.WindowState.CountOut | internal/engine/window.go:49-58 | the three counters change by exactly the evicted entry |
| Window.WindowState.Evict | internal/engine/window.go:43-66 | the live entries lose exactly the stale ones before the first that is not; compaction changes nothing visible; all entries ever copied by compaction plus the head stay within all ever evicted, which stay within all ever added; storage stays at most twice the live count |
| Window.WindowState.Metrics | internal/engine/window.go:68-90 | the metrics from the counters equal those recomputed from the live entries alone |
| WindowHistory.LiveFromFirstNotOvertaken | internal/engine/engine.go:125-128 | for timestamps in any order, the live entries are exactly the suffix of the history that begins at the first entry no later arrival's cutoff has passed |
| WindowHistory.WindowNesting | internal/engine/engine.go:125-128 | for timestamps in any order, a shorter window's live entries are a suffix of a longer one's, also when the shorter was created later |
| WindowHistory.CountsGrowWithDuration | internal/engine/engine.go:194-205 | hence attempts, failures and distinct UIDs never decrease from a shorter window to a longer one |
| WindowHistory.LateWindowNesting | internal/engine/engine.go:172-178 | a longer window created after c arrivals contains the shorter one iff the shorter one has itself dropped those c, for every history |
| WindowHistory.LateLongerWindowCanHoldLess | internal/engine/engine.go:172-178 | for all durations and every c above zero some history leaves the longer window with fewer entries |
| WindowHistory.NestingNeedsCreationOrder | internal/engine/engine.go:172-178 | nesting is guaranteed for every history iff the longer window was created no later than the shorter one |
| WindowHistory.ExactWhenInOrder | internal/engine/window.go:43-66 | with nondecreasing timestamps a window holds exactly the history's entries stamped in [t - duration, t] |
| WindowHistory.Sandwich | internal/engine/window.go:43-66 | with stamps within the skews of a nondecreasing clock, nothing live is older than the cutoff by more than both skews together, and nothing late enough for every cutoff is missing |
| WindowHistory.SandwichedAttempts | internal/engine/window.go:43-66 | hence the attempts lie between two counts over the whole history |
| Keys.ItoaInjective | internal/engine/cooldown.go:42-44 | two integers with one decimal rendering are equal, negative ones included |
| Keys.DigitsAreDecimal | internal/engine/cooldown.go:42-44 | the digits of a number stand for it in decimal, without a leading zero |
| Keys.WindowKeyInjective | internal/engine/cooldown.go:22 | window cooldown keys coincide iff reader and seconds do, even when reader ids contain bars |
| Keys.AuthKeyInjective | internal/engine/engine.go:335 | streak cooldown keys with hexadecimal UIDs coincide iff reader and UID do |
| Keys.WindowKeyMeetsAuthKey | internal/engine/cooldown.go:22 | exactly when a window key equals a streak key: one reader id is the other with the prefix, and the UID is the decimal seconds |
| Keys.KeyFamiliesDisjoint | internal/engine/engine.go:335 | the two families are disjoint as soon as no reader id begins with the `authfail` prefix |
| Keys.DedupeKeyInjective | internal/engine/engine.go:374-384 | without bars in the fields, two events share a key iff they agree on all joined fields |
| Keys.DedupeKeyTellsTimestamps | internal/engine/engine.go:374-384 | two stamps of one event share a key only when equal, whatever its fields contain |
| Keys.SharedKeyExtends | internal/engine/engine.go:374-384 | a normalised event shares its key with one of an id going on past a bar only if what follows the bar can begin a trimmed UID |
| Keys.ApartIffNoSharedKey | internal/engine/engine.go:374-384 | for normalised events of two readers: no dedupe key can belong to both iff neither id goes on past a bar, other than with a blank, after the other; no cooldown key iff neither is the other with the streak prefix |
| Keys.PlainIdsAreApart | internal/engine/engine.go:374-384 | ids without bars satisfy both conditions |
| Cooldowns.Cooldown.AllowKey | internal/engine/cooldown.go:26-40 | the answer and the whole new map, as the greedy rule prescribes; a cooldown that is not positive always permits and records nothing |
| Cooldowns.Cooldown.Allow | internal/engine/cooldown.go:18-24 | the same under the key of the reader and window |
| Cooldowns.AllowedIsGreedy | internal/engine/cooldown.go:26-40 | in any run, what is allowed under one key is the greedy schedule of that key's own requests; other keys do not matter |
| Cooldowns.GreedyIsSpaced | internal/engine/cooldown.go:33-38 | consecutive allowed times are at least the cooldown apart |
| Cooldowns.AtMostPerInterval | internal/engine/cooldown.go:33-38 | any interval of length L holds at most L / cooldown + 1 allowed times |
| Cooldowns.GreedyStaysAhead | internal/engine/cooldown.go:26-40 | no spaced choice of the requests is longer than the greedy one, and one as long ends no earlier |
| Cooldowns.CooldownIsOptimal | internal/engine/cooldown.go:26-40 | in any run, the alerts allowed under a key are spaced and at least as many as any spaced choice of its requests |
| Dedupe.DedupeCache.Seen | internal/engine/dedupe.go:17-30 | the answer and the whole new cache, with compaction |
| Dedupe.DedupeCache.Compact | internal/engine/dedupe.go:32-38 | in any order of ranging over the map, exactly the expired entries go |
| Dedupe.CompactionUnobservable | internal/engine/dedupe.go:17-38 | every run of queries at nondecreasing times gets the answers of a cache that never drops anything |
| Dedupe.SeenMeansRecentAdmission | internal/engine/dedupe.go:17-30 | a query is suppressed iff an earlier admitted query of its key lies within the ttl |
| Dedupe.AdmissionsAreSpaced | internal/engine/dedupe.go:17-30 | two admissions of one key are more than the ttl apart |
| Dedupe.LargeCacheIsUnexpired | internal/engine/dedupe.go:25-28 | right after an insertion, a cache of more than 10000 entries holds only unexpired ones, and one of at most 10000 has lost none |
| Access.NormalizeUID | internal/engine/access_control.go:104-122 | the loop computes the canonical form; the initial trim makes no difference |
| Access.CanonicalAppend | internal/engine/access_control.go:104-122 | the canonical form distributes over concatenation |
| Access.CanonicalIsHex | internal/engine/access_control.go:104-122 | it consists of 0-9 and A-F only |
| Access.CanonicalIdempotent | internal/engine/access_control.go:104-122 | it is idempotent |
| Access.CanonicalIgnoresTrim | internal/engine/access_control.go:105 | trimming first makes no difference |
| Text.TrimSpaceShape | internal/engine/access_control.go:105 | trimming takes away the blanks at both ends, all of them, and nothing else |
| Text.BlanksByCodePoint | internal/engine/access_control.go:105 | blanks are the characters with the White_Space property of Unicode, by code point |
| Access.CanonicalKernel | internal/engine/access_control.go:104-122 | two raw UIDs normalise alike iff their hex digits, in order, agree up to case |
| Access.BuildUIDSet | internal/engine/access_control.go:30-46 | the loop builds the set of nonempty canonical forms of the entries |
| Access.BuildUIDMap | internal/engine/access_control.go:48-64 | the loop builds that set for every reader whose list has any, in any map order |
| Access.BuildAccessControl | internal/engine/access_control.go:18-28 | the compiled policy, or a disabled one |
| Access.LookupMeaning | internal/engine/access_control.go:66-102 | with the policy enabled, a lookup of a canonical nonempty UID succeeds iff some entry of the global or that reader's list normalises to it |
| Sanitizer.SanitizeUIDList | internal/api/server.go:299-309 | the trimmed nonempty entries, in order |
| Sanitizer.SanitizeReaderLists | internal/api/server.go:311-331 | one of the results that the map orders allow |
| Sanitizer.SanitizedInOrder | internal/api/server.go:299-309 | by index: the stored entries are the trimmed ones, in order, and only blank ones are dropped |
| Sanitizer.SanitizedReaders | internal/api/server.go:311-331 | lists are stored under the trimmed nonempty ids of exactly those readers whose list is not all blank |
| Sanitizer.SanitizedKeepsMeaning | internal/api/server.go:299-309 | a sanitised list names the same UIDs |
| Sanitizer.SanitizedCompilesAlike | internal/api/server.go:299-309 | and compiles to the same set; a list that names a UID is never emptied |
| Sanitizer.SanitizingPreservesLookups | internal/api/server.go:311-331 | sanitising per-reader lists beside a global one never changes an answer about an event, in any map order, iff every list that can end up under a trimmed id names the same UIDs as the one that was there, the global ones aside |
| Sanitizer.SanitizingPreservesDecisions | internal/api/server.go:299-331 | storing the sanitised policy instead of the posted one changes no blacklist or whitelist decision about an event, in any map order, iff both kinds of lists meet that condition |
| Sanitizer.SanitizingPreservesAnyLookup | internal/api/server.go:311-331 | the same exactness for lookups under arbitrary strings, trimmed or not |
| Sanitizer.TrimmedIdsAreSafe | internal/api/server.go:311-331 | trimmed nonempty reader ids satisfy both conditions |
| Sanitizer.SanitizedPolicyCompilesAlike | internal/api/server.go:299-331 | under the condition for arbitrary ids the sanitised policy compiles to the very same access set |
| AlertStore.Store.constructor | internal/alerts/store.go:16-21 | an empty buffer; a limit that is not positive becomes 1000 |
| AlertStore.Store.Add | internal/alerts/store.go:23-32 | the buffer afterwards holds the last `limit` of the old alerts and the new one, shifted in place, and its last element is the new alert |
| AlertStore.Store.List | internal/alerts/store.go:34-49 | a suffix of the buffer: the last k alerts for a positive k, all of them otherwise |
| AlertStore.Store.Since | internal/alerts/store.go:51-61 | exactly the alerts stamped at or after the instant, in order |
| AlertStore.Store.Clear | internal/alerts/store.go:63-67 | the buffer is empty |
| AlertStore.BufferIsEndOfLog | internal/alerts/store.go:23-32 | adding a whole log one alert at a time leaves its last `limit` alerts in order, a suffix of it |
| EngineRun.BufferHoldsEndOfLog | internal/engine/engine.go:92-148 | after any run, the buffer holds the last `limit` of all alerts raised since the last clear or restart, in order, a suffix of them |
| MetricsStore.Store.Update | internal/metrics/store.go:28-46 | the reader's table is merged and stamped, and a least recently updated reader goes when there are too many; an empty id changes nothing |
| MetricsStore.MergeTakesLastRow | internal/metrics/store.go:36-41 | a reader's table has the last row given for each window |
| MetricsStore.InsertedKeepsRest | internal/metrics/store.go:36-42 | an update leaves other readers alone, and its own reader's rows for windows of which none is given |
| MetricsStore.ListingHasEveryRow | internal/metrics/store.go:48-74 | a listing has exactly the rows of the table |
| MetricsStore.Store.EvictOldest | internal/metrics/store.go:76-89 | the running minimum finds one of the oldest readers, which leaves both maps |
| MetricsStore.Store.Get | internal/metrics/store.go:48-60 | each stored value of the reader once, in some order, and its time; nothing and the zero time for an unknown one |
| MetricsStore.Store.GetAll | internal/metrics/store.go:62-74 | the same for every stored reader |
| MetricsStore.Store.Clear | internal/metrics/store.go:91-96 | both maps are empty |
| MetricsStore.UpdateKeepsMostRecent | internal/metrics/store.go:28-46 | one update keeps the store on the most recently updated readers, whichever oldest one is evicted |
| MetricsStore.StoreHoldsMostRecent | internal/metrics/store.go:28-89 | after any run the store has as many readers as fit, none updated earlier than one it forgot, with the times of their last updates in both maps |
| MetricsStore.MostRecentIsUnique | internal/metrics/store.go:76-89 | when the clock always advances those are determined by the run: exactly the min(limit, distinct) most recently updated readers |
| MetricsStore.NewestSurvives | internal/metrics/store.go:28-89 | the reader just updated is sure to stay, whichever oldest reader goes, iff it was stored before, or there is room, or some stored reader bears an earlier time |
| MetricsStore.TiesCanEvictTheNewest | internal/metrics/store.go:76-89 | so for any two readers updated at one clock reading, a full store can forget the very one it was given |
| Detection.SortedKeysAscend | internal/engine/engine.go:194-205 | the windows are visited in strictly ascending order of seconds |
| NonInterference.ForeignStep | internal/engine/engine.go:82-156 | an event of one reader changes nothing an independent reader can see, neither its entries in the shared caches nor their freshness |
| NonInterference.OwnStep | internal/engine/engine.go:82-156 | what a reader's own event does depends only on what that reader can see |
| NonInterference.RunsLookAlike | internal/engine/engine.go:57-164 | the two runs stay indistinguishable for the reader after any interleaving, with restarts, clears and configuration changes anywhere |
| NonInterference.ReaderNonInterference | internal/engine/engine.go:57-164 | for any interleaving of readers, restarts, clears and configuration changes, a reader's final state and all alerts about it are those of the run without the others' events at the same clock readings |
| Interference.SharedKeyInterferes | internal/engine/engine.go:366-384 | two readers' events of one instant with one joined key, under any configuration with a dedupe window: the first leaves the second without a trace |
| Interference.ExtensionDisturbs | internal/engine/engine.go:374-384 | so under any such configuration an id that goes on past a bar after another disturbs it in some run of normalised events |
| Interference.PrefixedReaderSilencesStreak | internal/engine/engine.go:272-275 | under any detection configuration with a cooldown, a blacklist alert of a reader whose id is another's with the streak prefix takes that other's streak key, and its repeated-failure alert, raised in its own run, is lost |
| Interference.IndependentIffNeverDisturb | internal/engine/engine.go:57-164 | for every valid detection configuration and any two distinct readers: in every run of the two, under every access policy, each ends as in its own run, iff the ids are apart for the dedupe cache as far as it is in use and for the cooldown as far as it is in use |
| EngineHistory.AdmitReader | internal/engine/engine.go:108-148 | an admitted event pushes itself to every window of its reader, advances its own UID's streak, and reports each window measured afterwards |
| EngineHistory.PassShape | internal/engine/engine.go:124-148 | the pass pushes each window once and leaves every other alone |
| EngineHistory.TailFailuresIsLongest | internal/engine/engine.go:327-334 | the streak count is the longest trailing run of failures with an error code |
| EngineHistory.StreaksSnoc | internal/engine/engine.go:319-334 | the incremental streak update equals recomputing every UID's trailing run from the longer history |
| EngineHistory.ReaderOfSnoc | internal/engine/engine.go:108-130 | a reader's state recomputed from its history grows as the engine's does |
| EngineHistory.ProcessFollowsHistory | internal/engine/engine.go:82-156 | every event keeps each reader's state a function of its admitted events |
| EngineHistory.StateFollowsHistory | internal/engine/engine.go:82-164 | after any run of events, restarts and clears, every reader's windows and streaks are those recomputed from its admitted events since the last restart |
| EngineReconfigured.AddMissingExtends | internal/engine/engine.go:172-178 | opening a known reader adds exactly the windows of configured seconds it lacks, empty, and leaves the others as they are |
| EngineReconfigured.SameSecondsCollapse | internal/engine/engine.go:172-189 | of configured durations with the same whole seconds a new reader takes the last and a known one the first |
| EngineReconfigured.AfterFollows | internal/engine/engine.go:125-130 | one more event under any configuration keeps a reader a function of its events and of the windows configured at each |
| EngineReconfigured.StateFollowsReconfiguredHistory | internal/engine/engine.go:57-192 | after any run with configuration changes anywhere, streaks are those of the reader's admitted events since the last restart, and each window holds what it would if fed exactly the events since the first one admitted under a configuration that has it |
| EngineReconfigured.WindowsNestAcrossConfigurations | internal/engine/engine.go:125-130 | of two windows of a reader in such a run the shorter one nests in the longer iff the longer is at least as old or the shorter has dropped what came before it |
| EngineReconfigured.ReconfigurationBreaksNesting | internal/engine/engine.go:57-178 | a run in which it fails: a configuration that adds a longer window between two events of one reader stamped alike leaves it with fewer entries |
| EngineReconfigured.MetricsAcrossConfigurations | internal/engine/engine.go:124-131 | in such a run the metrics of an admitted event are those of all the reader's windows as it leaves them, in ascending order |
| EngineReconfigured.MetricsNestAcrossConfigurations | internal/engine/engine.go:124-131 | so attempts, failures and distinct UIDs never decrease from a shorter window to a longer one at least as old |
| EngineDuplicates.AdmittedUnlessRecent | internal/engine/engine.go:85-90 | in any run an event is processed iff no event with the same joined fields, admitted since the last restart, was checked within the dedupe window before it |
| EngineProperties.MetricsFollowHistory | internal/engine/engine.go:124-131 | the metrics of an admitted event are, window by window in ascending order, those declared on the reader's events from the first not outrun by the window's duration |
| EngineProperties.MetricsExactInOrder | internal/engine/engine.go:124-131 | with the reader's stamps in order they are the metrics declared on exactly the events stamped in [t - duration, t] |
| EngineProperties.MetricsNest | internal/engine/engine.go:124-131 | along the sorted windows attempts, failures and distinct UIDs never decrease, in whatever order events came |
| EngineProperties.ScoreWeighs | internal/engine/engine.go:225-228 | raising a weight by d raises the score by d times that weight's own metric, or d over timing variance plus epsilon; without weights the score is zero |
| EngineProperties.ScoreIsDeclared | internal/engine/engine.go:225-228 | the score is the one declared on the window's events |
| EngineProperties.RulesAreDeclared | internal/engine/engine.go:211-233 | the rules computed from quotients are those declared on the window's events: counts against threshold times seconds, shares against ratios, lapses and score |
| EngineProperties.SeverityIsDeclared | internal/engine/engine.go:240-245 | so is the severity, from the same events, the declared rules and the score |
| Sending.SendDistinct | internal/engine/cooldown.go:26-40 | of calls under keys of their own, exactly those that were ready beforehand are let through |
| Sending.SendIsGreedy | internal/engine/cooldown.go:26-40 | the calls let through under one key are the greedy schedule of all the calls under it, hence a cooldown apart |
| EngineCalls.RunsAreTracked | internal/engine/engine.go:57-192 | after any run, configuration changes included, readers have their windows under their own seconds and the streaks of their admitted events |
| EngineCalls.AccessSends | internal/engine/engine.go:260-317 | the access check asks for an alert exactly when the configured lists call for one, and sends it as far as the cooldown allows |
| EngineCalls.AuthSends | internal/engine/engine.go:319-355 | the streak check asks exactly when its streak is two or more |
| EngineCalls.PassSends | internal/engine/engine.go:124-148 | the alerts and the cooldown of a pass are those of sending one call for each measured window that breaks a rule, for any cooldown |
| EngineCalls.EventSends | internal/engine/engine.go:92-148 | the alerts of an admitted event are exactly what its reader's history calls for, as far as the cooldown lets them through |
| EngineCalls.RunsSend | internal/engine/engine.go:82-164 | in any run since the last restart, all alerts raised and the cooldown left behind are those of sending all its calls in order |
| EngineCalls.AlertsAreGreedy | internal/engine/engine.go:82-164 | hence in any run the alerts sent under a key are the greedy schedule of the events that called for one, at least a cooldown apart |
| EngineSchedule.CallsInTime | internal/engine/engine.go:82-164 | with a clock that advances within events and between them, a run's calls for alerts are made in time order |
| EngineSchedule.AlertsAreOptimal | internal/engine/engine.go:82-164 | then no choice of the calls under a key that keeps them a cooldown apart is larger than what was sent |
| EngineAlerts.AccessAlertMeaning | internal/engine/engine.go:260-317 | for any cooldown and any earlier configurations, a blacklist alert is raised iff the lists name the UID, and a whitelist alert iff the policy demands listing and neither list names it, each provided the reader's access key is ready |
| EngineAlerts.AuthAlertMeaning | internal/engine/engine.go:319-355 | for any cooldown and any earlier configurations, a repeated-failure alert is raised iff this event and the previous one of its canonical UID on its reader are failures with an error code and their key is ready |
| EngineAlerts.WindowAlertMeaning | internal/engine/engine.go:124-148 | for timestamps in any order, any cooldown and any earlier configurations, the brute-force alerts are exactly those of the measured windows that break a rule and whose key is ready |
| EngineAlerts.WindowAlertsFollowHistory | internal/engine/engine.go:124-148 | while the configuration stays, of the windows computed from the reader's history |
| EngineAlerts.BruteforceAlertsAreDeclared | internal/engine/engine.go:124-148 | in order, every brute-force alert names one configured window with exactly the metrics, score, rules and severity declared on the events of its time span |
| EngineAlerts.DeclaredRulesRaiseAlerts | internal/engine/engine.go:207-258 | in order and for any cooldown, a window's declared alert is raised iff its declared rules are not empty and its key is ready once the access policy has spoken |
| EngineAlerts.AfterAccessElsewhere | internal/engine/engine.go:237 | for windows of a second or more that is the cooldown before the event |
| AlertFields.AlertsReportTheirEvent | internal/engine/engine.go:246-257 | in any state every alert of an event is of one of four types and bears, field by field, its own clock reading, reader, severity, rule and context: canonical and raw UID, source, result and error code |
| EngineSkew.ClampBounds | internal/engine/engine.go:386-401 | every clamped timestamp lies within the skews of the clock iff both skews are positive |
| EngineSkew.ClampedStamp | internal/engine/engine.go:386-401 | clamping changes nothing but the stamp, keeps it iff it is neither zero, too old nor too new, and else puts the current reading in its place |
| EngineSkew.RunsAreClamped | internal/engine/engine.go:84-86 | then in any run with a nondecreasing clock every admitted event stays within the skews of the reading at its arrival |
| EngineSkew.AttemptsAreSandwiched | internal/engine/engine.go:84-129 | for every event of every such run, each window's attempts lie between the count of admitted events since now + F - duration and the count since its own cutoff less both skews |
| EngineSkew.ResubmissionSuppressed | internal/engine/engine.go:85-90 | with no unexpired entry of either form in the cache, a resubmitted event is suppressed iff it comes within the dedupe window and is clamped to the same instant |
| EngineSkew.ClampedAlike | internal/engine/engine.go:386-401 | two clock readings clamp an event alike iff it bears a stamp that is neither too old nor too new at both |
| EngineSkew.SkewedDuplicateIsAdmitted | internal/engine/engine.go:85-90 | hence at a later reading it is admitted again iff there is no dedupe window, the window has passed, or it has no stamp, is too old or is too new at one of the readings |
| Coherence.MergeMeasured | internal/metrics/store.go:35-42 | merging a pass's metrics leaves one row per window, each the window's metrics after the push |
| Coherence.UpdateIsCoherent | internal/engine/engine.go:149-150 | an update, with or without an eviction, keeps the store in agreement with the live windows |
| Coherence.ProcessIsCoherent | internal/engine/engine.go:124-155 | so does every event, also for readers inserted again and for windows added by a new configuration |
| Coherence.StoreIsCoherent | internal/engine/engine.go:124-155 | after any run, with configuration changes, restarts and clears anywhere, each stored reader has exactly the rows of its live windows, each equal to that window's metrics |
| Coherence.StoreIsTouched | internal/engine/engine.go:149-150 | what the store can hold after a run of the engine is what it can hold after the updates since its last clear |
| Coherence.StoreKeepsMostRecent | internal/engine/engine.go:149-150 | so after any run it holds as many readers as fit, none updated earlier than one it forgot, with their last update times |
| ReaderStates.ReaderState.constructor | internal/engine/engine.go:181-189 | a new reader has one empty window for each configured whole second and no streaks |
| ReaderStates.ReaderState.AddMissing | internal/engine/engine.go:173-178 | windows newly configured are added empty; the others keep their contents |
| ReaderStates.ReaderState.PushWindow | internal/engine/engine.go:126-129 | evicting, adding and measuring one window changes that window alone |
| ReaderStates.ReaderState.SortedWindows | internal/engine/engine.go:194-205 | the window objects in ascending order of their keys |
| Engines.Engine.constructor | internal/engine/engine.go:41-55 | a new engine is empty and its compiled policy is that of its configuration |
| Engines.Engine.UpdateConfig | internal/engine/engine.go:57-60 | configuration and compiled policy change together; readers, cooldown and dedupe cache do not |
| Engines.Engine.Reset | internal/engine/engine.go:158-164 | readers, cooldown and dedupe cache are empty, the configuration stays |
| Engines.Engine.IsDuplicate | internal/engine/engine.go:366-372 | the answer and the new cache are those of the duplicate check on values |
| Engines.Engine.EvaluateAccess | internal/engine/engine.go:260-317 | the alert and the new cooldown are those of the access check on values |
| Engines.Engine.EvaluateAuthStreak | internal/engine/engine.go:319-355 | the alert, the new streaks and the new cooldown are those on values, whatever path the method takes |
| Engines.Engine.Evaluate | internal/engine/engine.go:207-258 | the alert and the new cooldown are those of the rules on values |
| Engines.Engine.BrokenRules | internal/engine/engine.go:211-233 | rules appended in turn are the concatenated rule list |
| Engines.Engine.GetReader | internal/engine/engine.go:166-192 | the reader object for the id, or for `unknown`; known readers gain missing windows, no other reader changes |
| Engines.Engine.ProcessWindow | internal/engine/engine.go:125-148 | one turn of the loop on the objects is one turn on values, and its alert reaches the alert store |
| Engines.Engine.ProcessWindows | internal/engine/engine.go:124-148 | the loop on the objects is the whole pass on values |
| Engines.Engine.ProcessAdmitted | internal/engine/engine.go:92-148 | the objects after an admitted event stand for the value-level result |
| Engines.Engine.ProcessEvent | internal/engine/engine.go:82-156 | the objects refine the value-level step, the returned alerts are its alerts, the alert store holds the last of the old alerts and these, and the metrics store is updated with exactly its metrics |
| Servers.Server.HandleRestart | internal/api/server.go:282-297 | engine and both stores are empty, the configuration stays |
| Servers.Server.HandleClear | internal/api/server.go:245-280 | exactly the stores that the target names, in any case, are emptied, any other target is rejected without effect, and the engine is untouched |
| Servers.ClearTargetMeaning | internal/api/server.go:255-258 | a request names a target iff it spells it between blanks in any case; only a blank one also stands for all |
| Servers.Server.Perform | internal/engine/engine.go:57-164 | each operation on the objects is that operation on the state of a run, with the alert and metrics stores |
| Servers.Server.Execute | internal/engine/engine.go:69-80 | any sequence of operations leaves the objects where the run ends: engine state, the end of the alert log, and a metrics store in one of the states it can reach |

## Left out

- HTTP handling, JSON encoding, the web UI, ingest adapters, parsers, configuration loading and file watching: input, output and presentation. Of the API only the sanitisers and the effects of restart and clear are modelled.
- SQL storage and logging: they do not feed back into the engine.
- Goroutines, mutexes and atomics: each exported operation is one atomic step.
- Floating-point rounding and the saturation of Go's `Time.Sub`: metrics and thresholds are real numbers, times are unbounded integers.
- SHA-256 and RFC 3339 rendering in `hashEvent`: the joined string itself is the key, with the timestamp in decimal nanoseconds.
- `strings.ToLower` on letters whose lower case is not ASCII, in the target of a clear request: no target name has such letters. The two others outside ASCII, U+0130 and U+212A, are modelled.
- The difference between nil and empty sets and maps: both answer every lookup alike.
- Growth of the alert buffer by `append`: the array is allocated at its full capacity, and filling and shifting happen in place.
- Sub-second windows: they are allowed, but two durations with the same whole seconds share one key, as in the code, and the later one in the list wins for a new reader.
- Hot configuration changes in the rule, alert and skew theorems: they fix the configuration along the run. What windows and streaks hold (`EngineReconfigured.StateFollowsReconfiguredHistory`), the metrics store (`Coherence.StoreIsCoherent`) and the alert buffer (`EngineRun.BufferHoldsEndOfLog`) do not.
- EngineReconfigured.StateFollowsReconfiguredHistory: of several configured durations with the same whole seconds it does not say which one the window took; `EngineReconfigured.SameSecondsCollapse` does.
- NonInterference.ReaderNonInterference: assumes normalised events (`internal/normalize/normalize.go:24-52`), ids that cannot disturb each other, which `Interference.IndependentIffNeverDisturb` shows to be exact for two readers, and that no new configuration changes the dedupe window or begins to use the cooldown; with a longer dedupe window an entry that compaction dropped in one run only would count again in the other.
- Coherence.StoreIsCoherent: assumes nonempty reader ids, which normalisation establishes; an event with an empty id would be kept under `unknown` by the engine and dropped by the metrics store.
- WindowHistory.WindowNesting: the longer window is not created after the shorter one, because otherwise it is false; `WindowHistory.LateWindowNesting` has the exact condition.
- EngineSkew.AttemptsAreSandwiched: needs both skews positive, because a skew that is not positive disables its side of the clamp (`EngineSkew.ClampBounds`).
