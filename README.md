# twitterscraper, modelled in Dafny

twitterscraper tracks the tweets of a set of Twitter profiles and notices when a stored tweet is deleted. The repository holds two generations of the pipeline, and this project models the core of both.

- **The newer pipeline** (`jobmanager/`, `repository/`, `twitterclient/`) works in three steps:
  - it splits each profile's history into calendar-month scan tasks;
  - it defers those tasks under a name chosen by first-match class dispatch, through the handler registered under that name (only the two scan handlers are registered, so an archival task cannot be deferred);
  - a handler reconciles the tweets fetched for a month with the stored ones by set difference.

  Storage is a profiles table and a tweets table keyed by (tweet id, user id). Writes insert only when the row is absent. A deletion mark is applied in bulk.
- **The older pipeline** (`services/`, `controllers/`, `models/`) works through jobs and workers:
  - jobs travel over an AMQP queue, and each job is audited in a job-historic table;
  - a fetch-and-persist worker stores each tweet of a window, committing or rolling back tweet by tweet;
  - a persisted-review worker compares the stored tweets of a window with those found online;
  - every suspected deletion is re-checked against each distinct Nitter mirror. A tweet counts as deleted only when every mirror reports it missing.

  Database sessions nest: only the outermost one commits, rolls back and closes.
- **Shared pieces**:
  - calendar months (`DateMonth`) and `daterange_by_month`;
  - the settings validators;
  - the `jsonable_encoder` subset used for payloads;
  - the Twitter API and Nitter clients' status classification, pagination and date rounding.

Every external service is a parameter of the model: the Twitter API, Nitter over HTTP, the clock, uuids and the scraper library. An oracle function stands for a lookup. A sequence of answers stands for a server's successive pages.

The model is written in two styles:
- **Functions and lemmas** model the pure parts: date arithmetic, set algebra over tweet ids, validators and encoders.
- **Classes with `modifies` clauses** model the parts that change state in place: the tables, the session context, the AMQP client and the task manager. Their loops become `while` loops with invariants, proved against specification functions.

The model also states two behaviours of the code that its comments do not mention. They are recorded as the code has them, and no other intended behaviour is claimed for them:
- `_parse_period` rewrites ISO input that has no days by prefixing "PT" to every "P", so "PT30M" becomes "PTT30M". See `Settings.ParsePeriodDamagesIsoTime`.
- `daterange_by_month` keeps the start date's day of month. It therefore skips months that lack that day, and it yields the end month only when the start's day is not after the end's day. See `DateMonths.SkipsMonthsAndEndMonth`.

Both are lemmas about the code as written; neither has a corrected variant.

Modules, one per source component:
- `Wrappers`, `Strings`: helpers.
- `Dates`, `DateMonths`, `DayRanges`: `utils.py`, plus the day windows fixed by the tests.
- `Encoders`: `utils.py`.
- `Settings`: `settings.py`.
- `Domain`: `models/domain.py`.
- `Jobs`: `models/jobs.py`.
- `TaskModels`, `Jobmanager`, `TaskHandlers`: the `jobmanager/` package.
- `Tables`, `TweetRepository`: the `repository/` package.
- `Twitterclient`: `twitterclient/twitterclient.py`.
- `TwitterService`: `services/twitter.py`.
- `Persistence`: `services/persistence.py`.
- `Databus`: `services/databus.py`.
- `JobsController`, `Creator`, `FetchAndPersist`, `PersistedReview`, `TasksScanners`: the `controllers/` modules.

## Model

| member | source | states |
|---|---|---|
| Jobs.JobTypeIdentifiesKind | twitterscraper/models/jobs.py:9-10 | two jobs share a job type (`JobType`: "FetchAndPersist" for a fetch-and-persist job, "PersistedReviewJob" for a persisted-review job) iff they are of the same kind, so the type identifies the class |
| Jobs.AdjacentWindowsPartition | twitterscraper/models/jobs.py:18-21 | with the window start inclusive and end exclusive, two windows that meet end to start cover their span and never both hold one timestamp |
| JobsController.HistoricRowsShape | twitterscraper/controllers/jobs.py:20-33 | `save_jobs` writes one row per job id, each keyed by its own id, created at the one clock reading, not finalized, without `job_id` in its data |
| JobsController.DistinctJobsEachSaved | twitterscraper/controllers/jobs.py:20-33 | with distinct job ids there are exactly as many rows as jobs and every job has its own row |
| JobsController.FreshJobsEachSaved | twitterscraper/controllers/jobs.py:20-33 | when no job id repeats or is stored, committing the rows of `save_jobs` adds one row per job, its own, keeps every stored row, and grows the table by exactly the number of jobs |
| JobsController.NewIdAddsRow | twitterscraper/controllers/jobs.py:25-31 | saving a job with a new id adds exactly one row |
| JobsController.SaveStep | twitterscraper/controllers/jobs.py:25-31 | saving the next job's row extends the rows of the jobs saved so far |
| JobsController.SaveJobs | twitterscraper/controllers/jobs.py:20-33 | the session gains the rows of all jobs, created at one clock reading; profiles and tweets are untouched; whether the rows persist is decided by the outermost commit (`FreshJobIds`) |
| JobsController.SetJobFinalized | twitterscraper/controllers/jobs.py:36-45 | an unknown job id changes nothing and reports not found; a known one gets `timestamp_finalized` set and keeps everything else |
| JobsController.JobPayloads | twitterscraper/controllers/jobs.py:14 | one payload per job, payload `i` being job `i`'s JSON text |
| JobsController.EnqueueJobs | twitterscraper/controllers/jobs.py:8-17 | publishes one message per job on the exchange and routing key, and adds one historic row per job to the enclosing session; nothing else on the bus or in the database changes |
| JobsController.EnqueuedOnePerJob | twitterscraper/controllers/jobs.py:8-17 | exactly one message per job is published, in job order, each with the exchange, routing key and persistence flag, and its body decodes back to that job's JSON text |
| JobsController.HistoricRowsConcat | twitterscraper/controllers/jobs.py:20-33 | two rounds of `save_jobs` leave the rows that one round over both job lists would |
| JobsController.PublishedConcat | twitterscraper/controllers/jobs.py:8-17 | two rounds of `enqueue_jobs` on one exchange and routing key publish what one round over both lists would |
| JobsController.EnqueuedNext | twitterscraper/controllers/jobs.py:8-17 | one more `enqueue_jobs` call leaves the profiles table as it was |
| JobsController.EnqueueStep | twitterscraper/controllers/jobs.py:8-17 | successive `enqueue_jobs` calls add up to one call with all their jobs: the same messages in order, the exchange declared, the same historic rows |
| Creator.ChainedWindowsCoverOnce | twitterscraper/controllers/creator.py:23-31 | day jobs whose windows follow each other cover the span from the first start to the last end, and each instant of it lies in exactly one job's window |
| Creator.ChainedStartsAfter | twitterscraper/controllers/creator.py:23-31 | in chained windows a later job starts no earlier than an earlier one ends |
| Creator.DayJobs | twitterscraper/controllers/creator.py:19-31 | one fetch-and-persist job per day, in the order of the days, each with the profile's userid, that day's window and its own uuid; the last `to_ts` is kept, and nothing is kept when there is no day |
| Creator.CreateProfileInitialJobs | twitterscraper/controllers/creator.py:18-38 | one fetch-and-persist job per day with the profile's userid and that day's window; jobs are published only when there is at least one; the checkpoint is saved exactly when the last day's `to_ts` is truthy, on the profile found by userid; the session commits iff no job id repeats or is stored and the lookup found exactly one profile, and otherwise no profile or job row changes while the messages stay published |
| FetchAndPersist.Accepted | twitterscraper/controllers/fetchandpersist.py:65-73 | the table never accepts more tweets than were tried |
| FetchAndPersist.AcceptedSnoc | twitterscraper/controllers/fetchandpersist.py:65-73 | trying one more tweet: it is stored iff its id is neither stored already nor accepted earlier in the run |
| FetchAndPersist.AcceptedStep | twitterscraper/controllers/fetchandpersist.py:65-73 | the next tweet is stored iff its id is not among the rows the table holds at that point |
| FetchAndPersist.AcceptedFresh | twitterscraper/controllers/fetchandpersist.py:65-73 | the stored tweets come from the fetched ones, carry ids not stored before, and never share an id |
| FetchAndPersist.AcceptedCovers | twitterscraper/controllers/fetchandpersist.py:65-73 | after the run every fetched id is stored, from before or from its first tweet in the run |
| FetchAndPersist.TriedStep | twitterscraper/controllers/fetchandpersist.py:65-73 | the tweets accepted after one more try: the same, or those plus the attached tweet when its id is new |
| FetchAndPersist.PersistNext | twitterscraper/controllers/fetchandpersist.py:66-73 | one pass of the loop saves the attached tweet iff the table accepts it and reports whether it did; profiles and job rows are untouched |
| FetchAndPersist.PersistTweets | twitterscraper/controllers/fetchandpersist.py:58-73 | the loop appends exactly the accepted tweets, each attached to the job's profile, to the table in order, and counts the others as failed |
| FetchAndPersist.EnqueueFetchAndPersistJobs | twitterscraper/controllers/fetchandpersist.py:25-33 | the jobs go through `enqueue_jobs` on the configured exchange, routed by the fetch-and-persist queue name with its persistence flag |
| FetchAndPersist.SaveProfileLastScanTimestamp | twitterscraper/controllers/fetchandpersist.py:36-42 | the one profile with the userid gets the given checkpoint, later or earlier than the stored one; when the lookup does not find exactly one profile, nothing changes and an error is returned |
| FetchAndPersist.FetchAndPersistCallback | twitterscraper/controllers/fetchandpersist.py:45-77 | a failed lookup (no profile selected or several, an empty userid selecting every profile) or a failed fetch raises before anything is stored or finalized; otherwise the tweets are tried in order, the accepted ones appended, the counts reported, and the job finalized if it is known |
| FetchAndPersist.PersistedRunCovers | twitterscraper/controllers/fetchandpersist.py:57-77 | the persisted and failed counts add up to the tweets fetched; every fetched id ends up stored; new rows have new, distinct ids, so a failure only means the id was stored already |
| FetchAndPersist.RepeatedIdPrefix | twitterscraper/controllers/fetchandpersist.py:65-73 | of three tweets whose third repeats the first id, the repeat is refused |
| FetchAndPersist.RepeatedIdScenario | twitterscraper/tests/test_persistence.py:37-67 | five tweets, one repeating an id, on an empty table: exactly one fails and the four distinct ones are stored in order |
| PersistedReview.EnqueuePersistedReviewJobs | twitterscraper/controllers/persistedreview.py:24-32 | the jobs go through `enqueue_jobs` on the configured exchange, routed by the persisted-review queue name with its persistence flag |
| PersistedReview.TweetsById | twitterscraper/controllers/persistedreview.py:117-118 | the dict's keys are the tweet ids, and each maps to a tweet of the list carrying that id |
| PersistedReview.TweetsByIdLastWins | twitterscraper/controllers/persistedreview.py:117-118 | when ids repeat, the dict keeps the last tweet with the id |
| PersistedReview.RemovedIds | twitterscraper/controllers/persistedreview.py:82-88 | a removed id is a stored id that the search did not return |
| PersistedReview.Enumerate | twitterscraper/controllers/persistedreview.py:87 | iterating a set yields each element exactly once |
| PersistedReview.Lookup | twitterscraper/controllers/persistedreview.py:91-92 | the list comprehension yields the stored tweet of each id in the set, each id once |
| PersistedReview.GetTweetsDifferences | twitterscraper/controllers/persistedreview.py:51-98 | with no stored active tweets in the window it returns two empty lists without searching; otherwise a failed search or re-check raises; else the removed tweets are the stored ones missing online and confirmed missing one by one, and the remaining ones are the rest of the stored ones, each once |
| PersistedReview.ReviewPartitions | twitterscraper/controllers/persistedreview.py:82-92 | remaining and removed partition the stored ids; a removed id was missing online and reported missing by every mirror; a stored id missing online and reported missing is removed; when the search returns every stored id nothing is removed |
| PersistedReview.MarkRemaining | twitterscraper/controllers/persistedreview.py:106-108 | stamping one more remaining tweet is reviewing it as remaining |
| PersistedReview.MarkRemoved | twitterscraper/controllers/persistedreview.py:109-112 | stamping one more removed tweet is reviewing it as removed |
| PersistedReview.UpdateTweetsTimestamps | twitterscraper/controllers/persistedreview.py:101-114 | every row becomes its reviewed form under the one clock reading; no row is added or dropped; profiles and job rows are untouched |
| PersistedReview.PersistedReviewCallback | twitterscraper/controllers/persistedreview.py:35-48 | a failed profile lookup (no profile selected or several, an empty userid selecting every profile), search or re-check raises before anything is written; otherwise remaining and removed cover the stored tweets of the window, the removed ones are those the review confirms missing, every row is stamped, and the job is finalized if it is known |
| PersistedReview.ReviewStamps | twitterscraper/controllers/persistedreview.py:101-114 | a remaining row only gains the review time, a removed row gains the review and deletion times, any other row and every other field is unchanged |
| Persistence.SessionContext.Enter | twitterscraper/services/persistence.py:43-56 | a session already in the context is handed out unchanged and nothing is opened; otherwise a new session is opened and put in the context |
| Persistence.SessionContext.Exit | twitterscraper/services/persistence.py:55-66 | an inner context manager changes nothing; the outermost commits (or, when its body raised, rolls back), then closes the session and clears the context |
| Persistence.NestedSessions | twitterscraper/services/persistence.py:47-51 | two nested `session()` blocks open one session and commit or roll back once, by the outer block's outcome; the inner block's outcome changes nothing |
| Persistence.Select | twitterscraper/services/persistence.py:170-188 | the query returns exactly the stored tweets that join with a profile and pass every given filter, in storage order |
| Persistence.SelectInOrder | twitterscraper/services/persistence.py:170-188 | the result of the query is the selected tweets taken at strictly increasing storage positions, with every selected position included, so the order is kept and nothing is dropped or merged |
| Persistence.SelectAllSelected | twitterscraper/tests/test_persistence.py:70-90 | when every stored tweet passes the filters, the query returns the stored sequence itself |
| Persistence.ActiveTweetsSplit | twitterscraper/services/persistence.py:174-177 | the active (True) and deleted (False) deletion-mark filters split the unfiltered result into two parts that make it up exactly |
| Persistence.ActiveTweetsCounts | twitterscraper/tests/test_persistence.py:119-142 | the active and deleted counts add up to the unfiltered count |
| Persistence.Partitions | twitterscraper/services/persistence.py:192-193 | every batch is non-empty and holds at most the batch size |
| Persistence.PartitionsConcat | twitterscraper/services/persistence.py:192-202 | batching loses, adds and reorders nothing: the batches joined give the rows back |
| Persistence.PartitionsFull | twitterscraper/services/persistence.py:192-193 | every batch but the last is full |
| Persistence.PartitionsCount | twitterscraper/tests/test_persistence.py:70-90 | rows that fill exactly m batches are read in exactly m batches |
| Persistence.TweetsIterator | twitterscraper/services/persistence.py:157-193 | the batches joined are the query's result, and each holds between one and the batch size rows |
| Persistence.Database.InsertTweet | twitterscraper/services/persistence.py:93-98 | a tweet is stored iff its id is not stored yet and its profile exists, and is then appended; otherwise nothing changes |
| Persistence.Database.SaveProfile | twitterscraper/services/persistence.py:100-105 | the row under the profile's id becomes this profile; tweets and job rows are untouched |
| Persistence.Database.GetTweets | twitterscraper/services/persistence.py:195-202 | the batches of the iterator, extended into one list, are the query's result |
| Persistence.Database.GetProfileBy | twitterscraper/services/persistence.py:146-154 | `if userid:` filters only on a non-empty userid, so an empty one selects every profile; `one()` fails with NoResultFound when nothing is selected and MultipleResultsFound when several are; otherwise it returns the one selected profile, which has the userid when one was given |
| Persistence.Database.GetProfileByUserid | twitterscraper/services/persistence.py:139-144 | `one()` over the profiles with the userid, even an empty one: NoResultFound when none has it, MultipleResultsFound when several do, otherwise the one profile with that userid |
| Persistence.Database.Rollback | twitterscraper/services/persistence.py:59-62 | the outermost session's rollback: profiles and job rows go back to their state at the session's start, tweets are kept |
| Persistence.Database.ListProfiles | twitterscraper/services/persistence.py:124-131 | every stored profile is listed iff it passes the `active` filter, each at most once, and only stored profiles are listed |
| Persistence.Database.SaveHistoric | twitterscraper/services/persistence.py:100-105 | the session's job row under its id becomes this row; profiles and tweets are untouched |
| Persistence.Database.MarkTweet | twitterscraper/controllers/persistedreview.py:106-112 | every stored row becomes its marked form (the review time, and the deletion time when deleted, no other field changed), and no row is added or dropped |
| Persistence.Database.GetJobHistoric | twitterscraper/services/persistence.py:204-207 | `one_or_none()` returns None iff no row has that job id; otherwise it returns the stored row itself, which is the only row carrying that job id |
| TasksScanners.ScanTargets | twitterscraper/controllers/tasks_scanners.py:44 | the scan keeps exactly the listed profiles whose `last_scan_timestamp` is truthy (set and non-zero), and nothing else |
| TasksScanners.ScanTargetsDistinct | twitterscraper/controllers/tasks_scanners.py:44 | filtering a listing with distinct ids keeps the ids distinct, so no profile is scanned twice |
| TasksScanners.ScanJobsChain | twitterscraper/controllers/tasks_scanners.py:54-63 | a scan job covers exactly `[checkpoint, now)` of that profile; the next scan starts at `now`, so two scans in a row cover the time since the first checkpoint once, without overlap |
| TasksScanners.ProfileNewTweetsScan | twitterscraper/controllers/tasks_scanners.py:50-63 | one fetch-and-persist job from the checkpoint up to this scan's clock reading `now` is published and its row added, created at `save_jobs`' own reading; then the profile is saved with its checkpoint moved to `now`; tweets are untouched |
| TasksScanners.Checkpointed | twitterscraper/controllers/tasks_scanners.py:62-63 | each saved row is keyed by its own profile id |
| TasksScanners.CheckpointedRows | twitterscraper/controllers/tasks_scanners.py:62-63 | when the scanned profiles are stored rows, the saved rows are exactly those rows, each with the checkpoint at its own scan's clock reading, one for every scanned profile |
| TasksScanners.ScanProfiles | twitterscraper/controllers/tasks_scanners.py:44-45 | scanning each target publishes its job in order, job `i` being target `i`'s scan job with that profile's job id and clock reading; the rows added are the scans' rows; each target's checkpoint moves to its scan's reading |
| TasksScanners.ScanRowsOwn | twitterscraper/controllers/tasks_scanners.py:50-60 | with distinct job ids the scans' rows are one per job, keyed by its id, each created at its own profile's `save_jobs` reading |
| TasksScanners.ScanTargetsStored | twitterscraper/controllers/tasks_scanners.py:43-44 | from a listing of the active rows, the scan targets are exactly the active stored rows with a checkpoint |
| TasksScanners.ScanOutcome | twitterscraper/controllers/tasks_scanners.py:43-45 | after the scan, every active profile with a checkpoint has it at its own scan's clock reading and every other row is unchanged; no row is added or removed |
| TasksScanners.ScanCommit | twitterscraper/controllers/tasks_scanners.py:39-47 | when the scans' job ids are fresh, the committed job rows are the stored ones plus one row per job, its own |
| TasksScanners.RunTaskNewTweetsScan | twitterscraper/controllers/tasks_scanners.py:39-47 | a stored profile is scanned iff it is active and has a checkpoint; each gets one job over `[checkpoint, its reading)`, published; the session commits iff no job id repeats or is stored, and then holds one new row per job, its own, and the moved checkpoints, every other row as it was; otherwise no profile or job row changes while the messages stay published; tweets are untouched |
| TasksScanners.SyncProfileActive | twitterscraper/controllers/tasks_scanners.py:74-87 | the answer is the profile's new `active` flag, true iff the lookup found it; the profile is saved synced either way (`Synced`: a found profile takes the current username, a missing one keeps its own); a failure other than not-found raises and saves nothing |
| TasksScanners.FirstFailure | twitterscraper/controllers/tasks_scanners.py:69 | the index of the first profile whose lookup raises something other than not-found: every lookup before it succeeds or finds nothing |
| TasksScanners.SyncedRows | twitterscraper/controllers/tasks_scanners.py:86 | each row the syncs save is keyed by its own profile id |
| TasksScanners.SyncedRowsKeys | twitterscraper/controllers/tasks_scanners.py:86 | only the synced profiles' ids get rows |
| TasksScanners.SyncedRowsOwn | twitterscraper/controllers/tasks_scanners.py:86 | with distinct ids each synced profile's saved row is its own sync |
| TasksScanners.ActiveAfterSync | twitterscraper/controllers/tasks_scanners.py:70-71 | the answer has no more profiles than the input |
| TasksScanners.ActiveAfterSyncFinds | twitterscraper/controllers/tasks_scanners.py:70-71 | every profile the lookup finds is in the answer, as synced |
| TasksScanners.ActiveAfterSyncOrigin | twitterscraper/controllers/tasks_scanners.py:66-71 | every profile in the answer is active, carries the username the lookup gives for it, and is the sync of an input profile |
| TasksScanners.SyncProfilesActive | twitterscraper/controllers/tasks_scanners.py:66-71 | the result is the found profiles in input order, with their syncs saved; it fails iff some lookup raises something other than not-found, and then only the syncs before that lookup are saved |
| TasksScanners.ReviewJobsCoverHistory | twitterscraper/controllers/tasks_scanners.py:90-100 | a profile's review jobs (`ReviewJobs`: one per window of `date_to_datetime_range`) cover every instant from its joined date's midnight up to `to_ts`, each in exactly one job, and no other instant |
| TasksScanners.CreateSyncProfilesTweetsProfileJobs | twitterscraper/controllers/tasks_scanners.py:90-102 | the jobs built are the profile's review jobs, published in one call and their rows added, created at `save_jobs`' own reading, even when there are none; profiles and tweets are untouched |
| TasksScanners.AllReviewJobs | twitterscraper/controllers/tasks_scanners.py:27-34 | every job of the sync is a persisted-review job that ends no later than `now` |
| TasksScanners.AllReviewJobsMembers | twitterscraper/controllers/tasks_scanners.py:27-34 | the sync's jobs are exactly the union of each profile's review jobs |
| TasksScanners.EnqueueReviews | twitterscraper/controllers/tasks_scanners.py:27-34 | each profile's review jobs are published in turn and their rows added, created at that profile's `save_jobs` reading; profiles and tweets are untouched |
| TasksScanners.ReviewRowsOwn | twitterscraper/controllers/tasks_scanners.py:27-34 | with distinct job ids the review rows are one per job, keyed by its id, each created at its own profile's `save_jobs` reading, and no other row |
| TasksScanners.ReviewCommit | twitterscraper/controllers/tasks_scanners.py:14-36 | when the review jobs' ids are fresh, the committed job rows are the stored ones plus one row per review job, its own |
| TasksScanners.SyncOutcome | twitterscraper/controllers/tasks_scanners.py:20-23 | syncing the listing of the active rows syncs every active stored row and leaves the inactive ones as they were |
| TasksScanners.SyncFoundOrigin | twitterscraper/controllers/tasks_scanners.py:20-23 | each profile the sync returns is the sync of an active stored row, found by the lookup |
| TasksScanners.SyncFoundAll | twitterscraper/controllers/tasks_scanners.py:20-23 | each active stored row the lookup finds is returned, as synced |
| TasksScanners.SyncFailure | twitterscraper/controllers/tasks_scanners.py:20-23 | a failing lookup on the listing is a failing lookup on an active stored row |
| TasksScanners.SyncListedProfiles | twitterscraper/controllers/tasks_scanners.py:17-24 | listing and syncing succeeds iff no active stored profile's lookup raises something other than not-found; then the answer is exactly the found profiles, as synced, and the store holds every active row synced and every other row unchanged |
| TasksScanners.RunTaskSyncProfilesTweets | twitterscraper/controllers/tasks_scanners.py:14-36 | fails iff some active profile's lookup raises, and then no job is enqueued and nothing changes; otherwise the review jobs of every found profile, from its joined date up to the one reading `now`, are published; the session commits iff the lookups succeeded and no job id repeats or is stored, and then holds the synced rows and one new row per job, its own; otherwise no profile or job row changes while the messages stay published; tweets are untouched |
| Settings.DefaultNitterBaseurlIsNotAList | twitterscraper/settings.py:52-60 | with the setting omitted, the field holds the plain default string and not a list of URLs, because no validator runs on a default |
| Settings.NitterBaseurlField | twitterscraper/settings.py:52-60 | the intended field: the default is the one-element list; a given string or list is accepted iff it holds at least one item and each item passes pydantic's `AnyHttpUrl` check, so an empty list is refused and a non-URL item is refused |
| Settings.NitterBaseurlFieldAgreesWhenGiven | twitterscraper/settings.py:52-60 | on a given value the intended field accepts exactly what the field as written accepts, holds the same list, and fails with the same error |
| Settings.FirstInvalidUrl | twitterscraper/settings.py:52 | the item check of the `List[AnyHttpUrl]` field finds no bad item iff every item is an http(s) URL; otherwise it finds the first item that is not one |
| Settings.ParsePeriod | twitterscraper/settings.py:82-96 | a value that is not a string passes through unchanged; a string gives a string |
| Settings.ParsePeriodShape | twitterscraper/settings.py:87-96 | a rewritten period has no lower-case letter, starts with "P", and carries a time marker: it contains "DT" or starts with "PT" |
| Settings.ParsePeriodDays | twitterscraper/settings.py:89-93 | the documented sample "1d5h30s" becomes "P1DT5H30S" |
| Settings.ParsePeriodMinutes | twitterscraper/settings.py:89-95 | "30m" becomes "PT30M" |
| Settings.ParsePeriodDamagesIsoTime | twitterscraper/settings.py:66-69 | an ISO 8601 time-only duration "PT30M", which the field's documentation accepts, becomes "PTT30M" |
| Settings.ItemShape | twitterscraper/settings.py:104 | a stripped chunk without commas holds no comma and neither begins nor ends with white space |
| Settings.ParseArraysItems | twitterscraper/settings.py:98-105 | a string gives one more item than it has commas, and no item holds a comma or begins or ends with white space |
| Settings.PeriodSeconds | twitterscraper/settings.py:77-80 | no period gives None; otherwise the whole seconds of the period, truncated toward zero for either sign |
| Strings.Upper | twitterscraper/settings.py:89 | `str.upper()` on ASCII: same length, each ASCII lower-case letter upper-cased, every other character kept |
| Strings.Lower | twitterscraper/repository/repository.py:40-43 | `str.lower()` on ASCII: same length, each ASCII upper-case letter lower-cased, every other character kept |
| Strings.ReplaceAbsent | twitterscraper/settings.py:93-95 | replacing a pattern that does not occur leaves the string unchanged |
| Strings.ReplaceKeepsOccurrence | twitterscraper/settings.py:92-93 | when the replacement begins with the pattern, the result contains the replacement wherever the pattern occurred |
| Strings.ReplaceShrinks | twitterscraper/services/twitter.py:30 | replacing with shorter text never lengthens the string, and shortens it when the pattern occurs |
| Strings.SplitProperties | twitterscraper/settings.py:103 | joining the chunks with the separator gives back the input; there is one more chunk than separators, and no chunk holds one |
| Strings.StripProperties | twitterscraper/settings.py:104 | the stripped string is a contiguous piece of the input that neither begins nor ends with white space |
| Strings.ParseNatToString | twitterscraper/utils.py:38-39 | reading back the decimal digits of a non-negative number gives the number |
| Strings.ParsePadded | twitterscraper/utils.py:38-39 | zero padding does not change the value read back |
| Dates.DaysInMonth | twitterscraper/utils.py:25-30 | a month has 28 to 31 days, and 29 exactly for February of a Gregorian leap year |
| Dates.NextDay | twitterscraper/utils.py:25-26 | adding a day fails only on 9999-12-31; otherwise the result is a valid later date |
| Dates.PrevDay | twitterscraper/utils.py:29-30 | subtracting a day fails only on 0001-01-01; otherwise the result is a valid earlier date |
| Dates.NextDayIsSuccessor | twitterscraper/utils.py:29-30 | no valid date lies strictly between a date and the day after it |
| Dates.PrevOfNext | twitterscraper/utils.py:25-30 | subtracting a day undoes adding one |
| DateMonths.DateStart | twitterscraper/utils.py:20-22 | the month's first day, which exists iff year and month are in range |
| DateMonths.EndExclusiveIsNextMonthStart | twitterscraper/utils.py:24-26 | the exclusive end is the first day of the following month, December rolling over to January; it fails exactly for months out of range and for December 9999 |
| DateMonths.EndInclusiveIsLastDay | twitterscraper/utils.py:28-30 | the inclusive end is the month's last day by the Gregorian rules, and the day before the exclusive end |
| DateMonths.MonthsAreContiguous | twitterscraper/utils.py:20-30 | each month's exclusive end is the next month's start, which comes after its own start |
| DateMonths.IsoFormatRoundTrip | twitterscraper/utils.py:32-39 | `from_isoformat(isoformat)` gives back the same year and month for every month with non-negative fields |
| DateMonths.FromDateIsMonthOfDate | twitterscraper/utils.py:41-43 | `from_date(d)` is the month of `d` |
| DateMonths.MonthOfIndex | twitterscraper/utils.py:53 | a month number maps back to a calendar month with that number |
| DateMonths.MonthlyFromMembership | twitterscraper/utils.py:53-54 | a month is yielded iff it is in the scanned range, has the start's day of month, and that date is not after the end |
| DateMonths.MonthlyFromIncreasing | twitterscraper/utils.py:53-54 | the months come out in strictly increasing order |
| DateMonths.EmptyWhenStartAfterEnd | twitterscraper/utils.py:46-54 | a start after the end yields no month |
| DateMonths.DaterangeByMonthShape | twitterscraper/utils.py:46-54 | for a start not after the end, the first month is the start's own, months strictly increase, and each yielded month has a valid date on the start's day that is not after the end |
| DateMonths.DaterangeByMonthMembership | twitterscraper/utils.py:46-54 | the months yielded are exactly those from the start's month on that have the start's day of month on or before the end date |
| DateMonths.SkipsMonthsAndEndMonth | twitterscraper/utils.py:47 | from 2020-01-31 to 2020-03-15 only January is yielded: the end date's month is left out although the documentation promises to include it |
| DayRanges.YearLength | twitterscraper/tests/test_utils.py:30-38 | a year spans 366 days of ordinals when it is a leap year and 365 otherwise |
| DayRanges.NextDayStart | twitterscraper/tests/test_utils.py:30-38 | the next day's midnight is exactly one day of seconds after this day's, across month and year ends |
| DayRanges.DayIntervals | twitterscraper/tests/test_utils.py:17-56 | one window per started day: window `i` starts `i` days after the start and ends a day later or at the end instant, whichever comes first; none when the end is not after the start |
| DayRanges.DayIntervalsChain | twitterscraper/tests/test_utils.py:17-56 | the windows are non-empty, each follows the previous without gap or overlap, the first begins at the start, the last ends at the end, and all but the last last a whole day |
| DayRanges.KnownMidnights | twitterscraper/tests/test_utils.py:17-56 | the dates of the test cases have the expected UTC midnights |
| DayRanges.DateToDatetimeRangeScenarios | twitterscraper/tests/test_utils.py:17-56 | the five test cases give exactly their expected windows |
| Domain.Url | twitterscraper/models/domain.py:40-44 | the URL fails iff the profile is not loaded or has an empty username; otherwise it is the twitter.com prefix, the username, "/status/" and the tweet id |
| Domain.UrlInjective | twitterscraper/models/domain.py:40-44 | for usernames without '/', equal URLs mean the same username and the same tweet id |
| Encoders.GenerateEncodersByClassTuples | twitterscraper/utils.py:67-75 | the map's keys are exactly the encoders of the given items, and each encoder maps to the tuple of its types in the order the items come |
| Encoders.TypesForAbsent | twitterscraper/utils.py:70-74 | an encoder that no item names gets an empty tuple |
| Encoders.NoTypeLost | twitterscraper/utils.py:73-74 | every item's type is in its own encoder's tuple |
| Encoders.TupleLengths | twitterscraper/utils.py:73-74 | the tuples of two different encoders together hold no more types than there are items, so no item is counted twice |
| Encoders.DictSet | twitterscraper/utils.py:180 | after `d[key] = value` the dict holds exactly its former keys and `key` |
| Encoders.EntriesErrPersists | twitterscraper/utils.py:154-180 | once a key or value fails to encode, the whole dict fails with that error |
| Encoders.ElemsErrPersists | twitterscraper/utils.py:184-197 | once an element fails to encode, the whole list fails with that error |
| Encoders.JsonableEncoder | twitterscraper/utils.py:141-198 | the loops over the dict entries and the list elements compute the recursive definition of the encoding, failing with the first element's error |
| Encoders.PrimitivesUnchanged | twitterscraper/utils.py:141-146 | str, int, bool and None come back unchanged, and an Enum member gives its value |
| Encoders.EncodeEntriesKeys | twitterscraper/utils.py:147-181 | with plain keys, the encoded prefix holds a key iff some entry so far has that key and is kept by the options |
| Encoders.DictKeepsKeyIff | twitterscraper/utils.py:147-181 | a dict with plain keys keeps a key iff it is in `include` when given, not in `exclude` when given, its value is not None under `exclude_none`, and it does not start with "_sa" under `sqlalchemy_safe` |
| Encoders.EncodeElemsPointwise | twitterscraper/utils.py:182-198 | the first `n` elements encode iff each does, and then to those encodings in order |
| Encoders.ListEncodedElementwise | twitterscraper/utils.py:182-198 | a list encodes iff every element does, and then keeps its length and order, element by element |
| Encoders.SqlalchemyStateDropped | twitterscraper/utils.py:155-162 | with the defaults, a "_sa_instance_state" key is dropped and a plain key is kept |
| Encoders.DictSetNewKey | twitterscraper/utils.py:180 | setting a key the dict does not hold appends it at the end |
| Encoders.FlatEntriesUnchanged | twitterscraper/utils.py:147-181 | the first `n` entries of a flat dict with distinct plain keys, none dropped, encode to themselves |
| Encoders.FlatDictUnchanged | twitterscraper/utils.py:147-181 | a flat dict with distinct plain keys and primitive values, none dropped, is returned as it is |
| Databus.Utf8Char | twitterscraper/services/databus.py:59-60 | one character encodes to one to four bytes, and to exactly one byte iff it is ASCII |
| Databus.Utf8Encode | twitterscraper/services/databus.py:59-60 | the encoding is at least one byte and at most four bytes per character |
| Databus.DecodeEncodedChar | twitterscraper/services/databus.py:59-60 | an encoded character decodes back to itself, with its own length, whatever bytes follow |
| Databus.Utf8RoundTrip | twitterscraper/services/databus.py:59-60 | decoding the UTF-8 encoding of any text gives the text back |
| Databus.Utf8Ascii | twitterscraper/services/databus.py:59-60 | ASCII text encodes byte for byte, each byte being the character's code |
| Databus.Body | twitterscraper/services/databus.py:58-62 | a bytes payload is sent as it is; a text payload is sent as bytes that decode back to the text |
| Databus.RunOnceCount | twitterscraper/services/databus.py:97-102 | at most the available messages are handled; at least one when any is available, because the limit is checked after a message; exactly `msg_limit` when that many are available and the limit is at least one |
| Databus.AMQPClient.constructor | twitterscraper/services/databus.py:17-21 | a new client has an empty exchange cache and has published, looked up and settled nothing |
| Databus.AMQPClient.GetExchange | twitterscraper/services/databus.py:31-44 | returns the exchange the name denotes, the default one for the empty name; caches it; asks the channel only for a non-empty name not yet cached |
| Databus.AMQPClient.Enqueue | twitterscraper/services/databus.py:46-72 | publishes exactly the messages of the payloads, in order, on the named exchange, which is then cached; the channel is asked for the exchange only when the name is non-empty and not yet cached; settlements and prefetch do not change |
| Databus.AMQPClient.ConsumeRunOnce | twitterscraper/services/databus.py:74-102 | sets the prefetch to `workers`; when every callback succeeds, handles and acks the run-once count of messages, in order; when one raises, nacks it, acks those before it and stops, raising |
| Jobmanager.FirstMatchNone | twitterscraper/jobmanager/jobmanager.py:34-41 | no class is found exactly when the task is an instance of none of the listed classes |
| Jobmanager.FirstMatchIsFirst | twitterscraper/jobmanager/jobmanager.py:35-38 | the class found is an instance's first listed class: the task is an instance of it and of no class before it |
| Jobmanager.ResolveTaskClass | twitterscraper/jobmanager/jobmanager.py:34-38 | the `for … break` loop finds the first listed class the task is an instance of, or none |
| Jobmanager.ReScanDeferredAsInitialScan | twitterscraper/jobmanager/jobmanager.py:35-38 | a re-scan task is deferred under the initial scan's name, never under its own, because its superclass is listed first |
| Jobmanager.TaskNameCases | twitterscraper/jobmanager/jobmanager.py:33-41 | a task gets a name iff it is of a listed kind; an archival task is named "ArchiveorgTweetV1" and either scan "InitialScanProfileTweetsV1"; whether a handler exists under that name is a separate question (`TaskHandlers.HandledIffScan`) |
| Jobmanager.Jobmanager.constructor | twitterscraper/jobmanager/jobmanager.py:14-23 | a new job manager's app has no registered handler and has deferred nothing |
| Jobmanager.Jobmanager.Register | twitterscraper/jobmanager/tasks.py:13 | registering a handler adds its name to the app's handlers and defers nothing |
| Jobmanager.Jobmanager.NewTask | twitterscraper/jobmanager/jobmanager.py:33-43 | raises "Invalid task type" iff the task is of no listed class; raises on the missing handler iff its class name has no registered handler (`app.tasks.get` gives None); in both cases defers nothing; otherwise defers the task's JSON dict once, under its class name; the registered handlers do not change |
| Jobmanager.Jobmanager.CreateProfileInitialScanTasks | twitterscraper/jobmanager/jobmanager.py:45-60 | the corrected operation succeeds iff every month's task can be built and, when there is at least one, the initial-scan handler is registered; it then defers exactly the month tasks, in order; a missing handler is reported as such; on failure it defers nothing |
| Jobmanager.Jobmanager.DeferAll | twitterscraper/jobmanager/jobmanager.py:58-60 | with the initial-scan handler registered, each task is deferred once, in order, under the initial scan's name with its JSON dict; without it, any task makes the run fail on the missing handler and nothing is deferred |
| Jobmanager.BuildScanTasks | twitterscraper/jobmanager/jobmanager.py:49-56 | the comprehension succeeds iff every month's ends can be computed, and then gives the month tasks |
| Jobmanager.TaskDictEncodesToItself | twitterscraper/jobmanager/jobmanager.py:43 | the JSON encoder returns a task's dict unchanged |
| Jobmanager.MonthTask | twitterscraper/jobmanager/jobmanager.py:50-54 | a month's task is a scan task with valid dates |
| Jobmanager.ScanTasksUpTo | twitterscraper/jobmanager/jobmanager.py:49-56 | the tasks for the first `n` months exist iff each of those months can be scheduled, and then task `k` is month `k`'s task |
| Jobmanager.ScanTasksFor | twitterscraper/jobmanager/jobmanager.py:49-56 | one scan task per month of the range, each with valid dates |
| Jobmanager.ScanTasksCoverMonths | twitterscraper/jobmanager/jobmanager.py:45-56 | the tasks can be built iff the range does not reach December 9999; then task `k` spans month `k` from its first day to its last |
| Jobmanager.DeferralsAppend | twitterscraper/jobmanager/jobmanager.py:58-60 | deferring two runs of tasks one after the other defers them in order |
| Jobmanager.AsWrittenFailsForEveryJoinedProfile | twitterscraper/jobmanager/jobmanager.py:49-56 | as written, the operation raises AttributeError for every profile that joined on or before today, since `models.ScanProfileTweetsV1` does not exist |
| TaskModels.ReScanIsInitialScan | twitterscraper/jobmanager/models.py:22-23 | a re-scan task is an instance of both scan classes and not the archival one, and its dict equals the initial scan's |
| TaskModels.DateToExclusive | twitterscraper/jobmanager/models.py:17-19 | the exclusive end exists iff the inclusive end is not 9999-12-31, and it is the day after the inclusive end |
| TaskModels.WindowConversion | twitterscraper/jobmanager/models.py:12-19 | a day lies in `[date_from, date_to_exclusive)` iff it lies in `[date_from, date_to_inc]` |
| TweetRepository.InsertAllEffect | twitterscraper/repository/repository.py:101-110 | after the insert every written tweet is present under (tweet id, user id), no existing row is overwritten, and the only new rows are written tweets |
| TweetRepository.InsertAllKeepsKeys | twitterscraper/repository/repository.py:108-109 | every row stays stored under its own (tweetid, userid) key |
| TweetRepository.InsertAllFirstWins | twitterscraper/repository/repository.py:108-109 | of several written tweets with one id and no stored row, the first one is stored |
| TweetRepository.InsertAllPresentIsNoop | twitterscraper/repository/repository.py:108-109 | writing tweets that are all stored changes nothing |
| TweetRepository.InsertAllIdempotent | twitterscraper/repository/repository.py:96-112 | writing the same tweets a second time changes nothing |
| TweetRepository.InsertAllAppend | twitterscraper/repository/repository.py:101-110 | inserting chunk after chunk is inserting their concatenation, so the chunk size does not matter |
| TweetRepository.MarkDeletedEffect | twitterscraper/repository/repository.py:120-125 | exactly this user's rows with a listed id get the mark `now`, already marked ones too; every other row and every other column stays |
| TweetRepository.MarkDeletedOverwrites | twitterscraper/repository/repository.py:120-125 | a later deletion mark overwrites an earlier one |
| TweetRepository.LastScanNotMonotone | twitterscraper/repository/repository.py:64-71 | the checkpoint is overwritten whatever it was: a later call with an earlier date moves it back, and no row is added |
| TweetRepository.InsertProfileEffect | twitterscraper/repository/repository.py:73-94 | an existing profile row is never touched; the profile is added, with the column defaults of `NewProfile` (enabled, archiving enabled, no checkpoint), exactly when neither its user id nor its username is stored |
| TweetRepository.FilterIgnoresCase | twitterscraper/repository/repository.py:39-44 | a profile whose name matches a filter name up to ASCII letter case is kept, and a non-empty filter drops a profile matching none |
| TweetRepository.Repository.constructor | twitterscraper/repository/repository.py:19-25 | a new repository holds no profile and no tweet |
| TweetRepository.Repository.GetProfiles | twitterscraper/repository/repository.py:33-46 | returns exactly the stored profiles that pass the filter, and all of them for a None or empty filter |
| TweetRepository.Repository.GetProfileById | twitterscraper/repository/repository.py:48-52 | returns the profile with that user id iff one is stored, and None otherwise |
| TweetRepository.Repository.UpdateProfileLastScan | twitterscraper/repository/repository.py:64-71 | sets the stored profile's checkpoint to the date, does nothing when no profile has that user id, and leaves the tweets |
| TweetRepository.Repository.WriteProfile | twitterscraper/repository/repository.py:73-94 | the profiles become the insert-if-absent of the new profile, and the tweets stay |
| TweetRepository.Repository.WriteTweets | twitterscraper/repository/repository.py:96-112 | an empty list changes nothing; otherwise it fails iff the user has no profile, and then stores nothing; on success the tweets are the insert-if-absent of every written tweet |
| TweetRepository.Repository.UpdateDeletedTweets | twitterscraper/repository/repository.py:114-128 | an empty id set changes nothing; otherwise this user's rows with a listed id get the deletion mark |
| Tables.ToDict | twitterscraper/repository/tables.py:11-22 | the dict holds exactly the columns whose value is not None, each with its value |
| Tables.ProfileInsertValues | twitterscraper/repository/repository.py:75-85 | the inserted dict, built from the instance's distinct columns (`ProfileInstanceColumns`), holds exactly userid, username, enabled and joined_date, with the given userid and enabled true |
| TaskHandlers.SetupTasks | twitterscraper/jobmanager/tasks.py:10-32 | `setup_tasks` registers exactly the initial-scan and the re-scan handler names, and defers nothing |
| TaskHandlers.HandledIffScan | twitterscraper/jobmanager/tasks.py:13-32 | once the handlers are set up, a task finds its handler iff it is a scan; an archival task, named "ArchiveorgTweetV1", has none, so `new_task` (`twitterscraper/jobmanager/jobmanager.py:43`) raises on it |
| TaskHandlers.ReScanHandlerUnreachable | twitterscraper/jobmanager/tasks.py:13-14 | no deferred task reaches the re-scan handler; every scan task reaches the initial-scan handler, which retries |
| TaskHandlers.Reconcile | twitterscraper/jobmanager/tasks.py:54-55 | the deleted ids are stored and no longer online, the new ids are online and not stored, the two are disjoint, and with the common ids each rebuilds its side |
| TaskHandlers.NewTweets | twitterscraper/jobmanager/tasks.py:56 | the kept tweets are exactly the fetched tweets whose id is new |
| TaskHandlers.NewTweetsAppend | twitterscraper/jobmanager/tasks.py:56 | the filter keeps fetch order: filtering a concatenation concatenates the filtered parts |
| TaskHandlers.NewTweetsIds | twitterscraper/jobmanager/tasks.py:52-56 | the ids the re-scan writes are exactly the new ids |
| TaskHandlers.MarkDeletedInsertCommute | twitterscraper/jobmanager/tasks.py:58-61 | a deletion mark and an insert of another id give the same table in either order |
| TaskHandlers.WriteAndMarkCommute | twitterscraper/jobmanager/tasks.py:58-61 | the two writes the re-scan runs side by side give the same table in either order, because the written ids and the marked ids are disjoint |
| TaskHandlers.ReScanInsertedKeys | twitterscraper/jobmanager/tasks.py:56-59 | the re-scan's insert adds exactly the rows of the new ids |
| TaskHandlers.ReScanRows | twitterscraper/jobmanager/tasks.py:52-61 | row by row: new ids are stored, stored ids no longer online get the mark `now`, ids both stored and online stay untouched, and other users' rows stay |
| TaskHandlers.InitialScan | twitterscraper/jobmanager/tasks.py:13-27 | raises on a window ending 9999-12-31, else raises on a missing profile; otherwise stores every tweet fetched for `[date_from, date_to_inc + 1 day)` under the profile; profiles never change |
| TaskHandlers.ReScan | twitterscraper/jobmanager/tasks.py:32-61 | the same errors as the initial scan; otherwise writes the new tweets and marks the vanished stored ones of the window as deleted, as the reconciliation defines |
| TaskHandlers.PersistedIdsAreRows | twitterscraper/jobmanager/tasks.py:45-53 | the persisted ids of a re-scan (`PersistedIds` of the range query) are exactly the tweet ids of this user's rows published on or after `date_from` and before `date_to_exc` |
| Twitterclient.EnsureTweetsAreDeleted | twitterscraper/twitterclient/twitterclient.py:38-53 | every id is looked up once, and the result is exactly the ids not found |
| Twitterclient.NotFoundProperties | twitterscraper/twitterclient/twitterclient.py:38-53 | the ids the lookup no longer finds (`NotFound`) are a subset of the input; an empty input, or one whose ids are all found, gives an empty set |
| TwitterService.NoDoubleSpaceIn | twitterscraper/services/twitter.py:30 | a text in which no space is followed by another space holds no double space for the replacement to find |
| TwitterService.CollapsedSlot | twitterscraper/services/twitter.py:30 | replacing double spaces in two texts free of them, joined by one double space, leaves the two texts joined by a single space |
| TwitterService.MessageWithoutIdentifier | twitterscraper/services/twitter.py:24-30 | with neither a truthy username nor a truthy userid the message reads "The profile does not exists" |
| TwitterService.LabelledMessage | twitterscraper/services/twitter.py:26-30 | a space-free identifier after `username=` or `userid=` passes through the double-space replacement unchanged |
| TwitterService.MessageNamesUsername | twitterscraper/services/twitter.py:26-27 | a truthy space-free username is named as `username=<value>`, whatever the userid |
| TwitterService.MessageNamesUserid | twitterscraper/services/twitter.py:28-29 | without a truthy username, a truthy space-free userid is named as `userid=<value>` |
| TwitterService.MessageNeverLonger | twitterscraper/services/twitter.py:30 | the message is never longer than the sentence it comes from, and strictly shorter when that sentence holds a double space |
| TwitterService.FoundStatuses | twitterscraper/services/twitter.py:83-93 | an id has a found status iff the response carries it with a creation time; each such status names its id, says it exists and has a timestamp |
| TwitterService.StatusesCoverRequest | twitterscraper/services/twitter.py:95-103 | every requested id gets a status naming it; it says the tweet exists iff the response carried the id with a creation time, and a missing tweet has no timestamp; the keys are the found ids plus the requested ids |
| TwitterService.GetTweetsStatusAsWritten | twitterscraper/services/twitter.py:72-83 | more than 100 ids raise before any request |
| TwitterService.AsWrittenFailsWhenNoneExists | twitterscraper/services/twitter.py:83 | as written, a batch of 1 to 100 ids none of which exists raises TypeError, where the intended result marks every id as not existing |
| TwitterService.GetTweetsStatus | twitterscraper/services/twitter.py:72-103 | it fails iff more than 100 ids are given, with that error; otherwise the result is the found statuses merged with every requested id not found marked missing |
| TwitterService.ApiExcludeAsWrittenInverted | twitterscraper/services/twitter.py:120-122 | as written, "retweets" is always excluded and replies are excluded exactly when the caller asks to include them |
| TwitterService.ApiExcludeFollowsParameter | twitterscraper/services/twitter.py:114-122 | corrected, retweets are always excluded and replies are excluded iff they are not to be included |
| TwitterService.ApiRequestFor | twitterscraper/services/twitter.py:124-143 | each request starts at the later of the given start and 2010-11-06T00:00:01Z, ends at the given end, asks for the page size, excludes replies iff they are not included, and carries no token first and the previous page's next token after |
| TwitterService.PagesEnd | twitterscraper/services/twitter.py:124-145 | pages are read up to and including the first one that marks the last page, and no earlier page marks it |
| TwitterService.PageTweetsFields | twitterscraper/services/twitter.py:146-162 | a page without data yields no tweets; otherwise one tweet per entry, in order, with its id and creation time, under the requested userid, a reply iff its id differs from its conversation id |
| TwitterService.CollectedAppend | twitterscraper/services/twitter.py:149-162 | the tweets of pages read one after another are the tweets of the earlier pages followed by those of the later ones |
| TwitterService.ApiGetTweetsInRange | twitterscraper/services/twitter.py:109-165 | an end before the API's first instant requests nothing and returns nothing; otherwise exactly the pages up to the first without a next token are requested, each request as ApiRequestFor states, and the tweets are theirs in order |
| TwitterService.MakeNitterClient | twitterscraper/services/twitter.py:183-187 | an empty base URL list raises; otherwise the client keeps the list and the set of its distinct URLs |
| TwitterService.Pick | twitterscraper/services/twitter.py:189-190 | the picked base URL is one of the configured ones |
| TwitterService.EnsureFrom | twitterscraper/services/twitter.py:203-212 | a status from the walk over the servers names the requested id and has no timestamp |
| TwitterService.EnsureFromMissing | twitterscraper/services/twitter.py:203-212 | the walk reports the tweet missing iff every server says it is missing |
| TwitterService.FirstToConfirmShift | twitterscraper/services/twitter.py:207-210 | a later server is the first to confirm iff the first server said missing and that server is the first to confirm among the rest |
| TwitterService.EnsureFromExists | twitterscraper/services/twitter.py:203-212 | the walk reports the tweet existing iff some server says so after every server before it said missing |
| TwitterService.EnsureFromError | twitterscraper/services/twitter.py:203-212 | an error raised by the walk is the error of a server asked after every server before it said missing |
| TwitterService.EnsureFromAnswers | twitterscraper/services/twitter.py:203-212 | in terms of each server's answer (`Classify` of its response, where a 404 whose body says "Tweet not found" means missing and another 4xx/5xx status raises): missing iff all say missing, existing iff some server confirms after all before it said missing, otherwise the first error raised |
| TwitterService.EnsureStatus | twitterscraper/services/twitter.py:203-212 | the loop over the distinct servers returns the walk's answer; the servers asked are a prefix of the iteration order, and it stops early only after an answer other than "missing" |
| TwitterService.StatusOf | twitterscraper/services/twitter.py:196-199 | the status of one id, ensured or from one random server, names that id |
| TwitterService.NitterGetTweetsStatus | twitterscraper/services/twitter.py:196-201 | it succeeds iff every id's lookup succeeds; then the result is keyed by exactly the ids, each mapped to its own lookup's status; otherwise the error is that of some id's lookup |
| TwitterService.GetTweetsRemoved | twitterscraper/services/twitter.py:192-194 | it succeeds iff every id's ensured lookup succeeds; then an id is reported removed iff it was asked for and every distinct server says it is missing |
| TwitterService.NitterToDate | twitterscraper/services/twitter.py:244-247 | the to-date is the end instant's date, moved to the next day unless the instant is midnight; it overflows only for a non-midnight instant on the last representable day |
| TwitterService.NitterToDateIsCeiling | twitterscraper/services/twitter.py:241-247 | a day's midnight is at or after the end instant iff that day is not before the to-date, so Nitter's exclusive until date loses nothing before the end |
| TwitterService.NitterRepliesFlag | twitterscraper/services/twitter.py:254-256 | the first search query ends with the `e-replies` flag iff replies are not to be included |
| TwitterService.FollowSearchPages | twitterscraper/services/twitter.py:258-274 | the first path is the initial query and each later path follows the previous page's next query; it succeeds iff none of the pages up to the first last page has an error status, and then returns their tweets in order; otherwise it stops at the first error status and raises it |
| TwitterService.NitterGetTweetsInRange | twitterscraper/services/twitter.py:234-274 | a to-date overflow raises before any request; otherwise the first path searches from the start date to the to-date with the replies flag; the result is the search loop's as FollowSearchPages states |

## Left out

- Network and HTML I/O are not modelled. This covers tweepy, `requests.get`, the Nitter HTML parsing in `_nitter_parse_tweets`, pnytter and the archive.org wrappers. Each lookup is an oracle parameter, and each paginated fetch takes the server's pages in order as a parameter.
- Concurrency is not modelled. This covers `asyncio.gather`, `async_gather_limited` and the worker-mode tasks of `consume`. The gathered calls run one after another in input order. Where one of them fails, the first failure in that order is the one reported.
- `session_async` is the same state machine as `session`, so it is modelled once, as `Persistence.SessionContext`.
- The clock, uuid generation and `random.choice` are parameters: `now`, `today`, `scanAt`, `savedAt`, `uuids`, `jobIds`, `jobId`, `choice`.
- `TwitterAPIClient.get_userinfo` and the profile save of `run_creator` (`twitterscraper/controllers/creator.py:9-15`) are not modelled. `Creator.CreateProfileInitialJobs` models the job creation as it runs inside `run_creator`'s session, up to that session's commit. The order "profile saved, then jobs created" is therefore not stated.
- The helpers `daterange`, `day_to_timestamps`, `timestamp_in_range` and the timestamp converters are not part of this model's source. Their outputs (day windows, timestamps) are parameters.
- `date_to_datetime_range` is modelled only as far as the five cases of `twitterscraper/tests/test_utils.py:17-56` fix it, as `DayRanges.DateToDatetimeRange`.
- SQL execution is not modelled: migrations, `run_migrations`, `tcp_wait` and the partition DDL of `write_profile`. The tables are maps held in classes. Of the integrity errors, the model has two. One is a duplicate tweet key in fetch-and-persist, which rolls back that tweet. The other is a repeated or already stored job id, which makes the outermost commit of a task or of the creator fail (`JobsController.FreshJobIds`). Other integrity errors, such as foreign keys, are not modelled.
- pydantic's `json()` serialization of a job or task is a `serialize` parameter, or the model's own encoder where the payload is a plain dict.
- Printing and logging are not modelled, since they change no state the model tracks.
- `jsonable_encoder`'s pydantic, dataclass, `vars()` and custom-encoder branches are not modelled, because they depend on foreign runtime types. Floats are not modelled either.
- `entrypoint.py`, `common.py`, `controllers/system.py` and `controllers/verify_deletedtweets.py` are not part of this model. They are bootstrapping, empty hooks or print-only diagnostics.
- TweetRepository.Repository.WriteTweets: the row mapping of `pnytter_tweet_to_orm` (`twitterscraper/repository/mapper.py:9-21`) is not modelled. The source builds each row's `data` as `jsonable_encoder(tweet, exclude={"tweet_id", "created_on", "author"})` plus `scraped_on`, the ISO text of one `utcnow()` reading per chunk (`twitterscraper/repository/repository.py:102-104`), and drops the time zone from `published_on`. The model's `FetchedTweet.data` stands for the mapped `data`, which `TweetRepository.RowOf` stores unchanged, so the `scraped_on` reading and the encoding are not stated. Keys, the insert-if-absent rule and the foreign-key check, which the contracts state, do not depend on them.
- AMQP broker failures are not modelled. `get_exchange(name, ensure=True)` (`twitterscraper/services/databus.py:41`) raises when the exchange does not exist, and a gathered `exchange.publish` (`twitterscraper/services/databus.py:66-72`) can fail. In the source either exception leaves the task's session block, which then rolls back. `Databus.AMQPClient.Enqueue` never fails in the model. So the "commits iff the job ids are fresh" contracts of `TasksScanners.RunTaskNewTweetsScan`, `TasksScanners.RunTaskSyncProfilesTweets` and `Creator.CreateProfileInitialJobs` assume that the broker accepts every publish.
- Strings.Upper: only ASCII letters change case. Python's `str.upper()` also maps non-ASCII letters, and may change the length ("ß" becomes "SS"). So `_parse_period` is modelled for ASCII text only.
- Strings.Lower: only ASCII letters change case. Python's `str.lower()` also maps non-ASCII letters. So the username filter of `get_profiles` is modelled for ASCII names only.
- Databus.AMQPClient.ConsumeRunOnce: the queue's messages are a finite sequence given up front. When fewer than `msg_limit` messages are available, the model handles them all and returns. The source's `queue.iterator()` would instead wait for more messages, returning only once the limit is reached. Worker mode (`msg_limit` None) is not modelled.
- Databus.RunOnceCount: counts the messages handled from a queue that is given up front, so a queue that runs dry ends the count. In the source the consumer would wait for more messages instead.
- Strings.ParseNat: only non-empty strings of ASCII digits are read as numbers. pydantic v1 turns the `year` and `month` chunks of `DateMonth.from_isoformat` (`twitterscraper/utils.py:37-39`) into `int` with Python's `int()`. That also accepts surrounding whitespace, a leading `+`, `_` between digits and non-ASCII decimal digits ("+1", " 1", "1_0", "١"). The model refuses such chunks with a validation error, whereas the source reads them. `from_date` always passes `date.isoformat()`, whose chunks are plain ASCII digits, so that path is unaffected.
- Settings.NitterBaseurlField: pydantic's `AnyHttpUrl` grammar is not modelled. It is a parameter (`isUrl`) that judges each item. pydantic reports every invalid item, whereas the model reports the first one. The same holds for `Settings.NitterBaseurlFieldAsWritten`.
- Encoders.JsonableEncoder: the `PurePath` branch (`twitterscraper/utils.py:143-144`, giving `str(obj)`) and the `ENCODERS_BY_TYPE` branch (`twitterscraper/utils.py:200-201`, e.g. `date` and `datetime` to `isoformat()`) are not modelled. Such values fall to `Err(Unsupported)` in the model, whereas the source encodes them.
- The clock is read per profile in the tasks: `_profile_new_tweets_scan` and `save_jobs` each read it once per call. The model takes these readings as functions of the profile id (`scanAt`, `savedAt`). It does not state how they are ordered in time.
- TasksScanners.SyncProfilesActive: the source gathers all syncs concurrently. Here the first lookup that fails with an error other than "profile not found" stops the remaining syncs, after the syncs before it were saved.
- TwitterService.NitterGetTweetsStatus: the source gathers the lookups concurrently. Here the first failing lookup in input order is the error reported.
- TwitterService.GetTweetsStatus: a `response.data` of None is read as an empty response (see Findings).

## Findings

| source | as written | input that shows it | evidently intended | confidence | as-written member | corrected member |
|---|---|---|---|---|---|---|
| twitterscraper/settings.py:52-60 | the field's default is the string "https://nitter.net"; pydantic runs no validator on a default, so the list-typed field holds a bare string | a settings file without `nitter_baseurl` | the default is the one-element list ["https://nitter.net"] | medium, not executed | Settings.NitterBaseurlFieldAsWritten, Settings.DefaultNitterBaseurlIsNotAList | Settings.NitterBaseurlField |
| twitterscraper/jobmanager/jobmanager.py:49-56 | builds `models.ScanProfileTweetsV1(..., date_to=...)`; neither the class nor the field exists in `jobmanager/models.py` | any profile whose joined date is on or before today | one `InitialScanProfileTweetsV1` per month, from `date_start` to `date_end_inclusive` (`date_to_inc`) | high, not executed | Jobmanager.CreateProfileInitialScanTasksAsWritten, Jobmanager.AsWrittenFailsForEveryJoinedProfile | Jobmanager.Jobmanager.CreateProfileInitialScanTasks |
| twitterscraper/services/twitter.py:120-122 | "replies" is added to `exclude` when `include_replies` is true | `include_replies=True`, the default | replies are excluded only when `include_replies` is false, as the Nitter client does at lines 255-256 | high, not executed | TwitterService.ApiExcludeAsWritten, TwitterService.ApiExcludeAsWrittenInverted | TwitterService.ApiExclude, TwitterService.ApiExcludeFollowsParameter |
| twitterscraper/services/twitter.py:83 | iterates `response.data`, which is None when none of the requested tweets exists | 1 to 100 ids of deleted tweets | every id is returned with `exists=False` | medium, not executed | TwitterService.GetTweetsStatusAsWritten, TwitterService.AsWrittenFailsWhenNoneExists | TwitterService.GetTweetsStatus, TwitterService.StatusesCoverRequest |
