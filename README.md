# MariaDB backup and retention — a verified model

`backup.py` takes compressed logical dumps of MariaDB databases and keeps
them under a retention policy. Each dump is stored as
`<storage>/<host>/<db>-<DD-MM-YYYY>-<N>.sql.gz`, and the tool restores a
chosen dump on demand. This project models the logic at its core and proves
properties of that model:

- **Retention policy lookup** (`Policy`). An override for exactly the
  database's name wins. Otherwise the configured default applies, and failing
  that the built-in `keep_last: 10, max_gb: 5.0`. A `keep_last` or `max_gb`
  missing from the chosen policy also falls back to those values.
- **The retention pass** (`Listing`, `Retention`, and `Storage.HostDirectory`).
  The pass lists one database's backups newest first, using the date-qualified
  glob. The count rule deletes everything past `keep_last`. The pass then lists
  again, and the size rule deletes the oldest backup while the total exceeds
  the byte bound and one remains. `Retention.Retain` is the specification as a
  function of the directory listing. `HostDirectory.ApplyRetention` performs
  the pass by unlinking files one by one, and it is proved to end in the state
  `Retain` describes.
- **Sequence numbers and file names** (`Artifacts`, `Sequencer`). The next
  backup of a day is numbered one past the largest trailing number that parses
  among that day's files, or 1 if none parses. The name built from it is fresh.
- **One backup run** (`Storage.HostDirectory.RunBackup`). The dump processes
  are reduced to their outcome. On success the new file stays and retention
  runs. On failure the partial file is removed. The model produces exactly
  one notification event per run; the source can send two when retention
  raises after the success notice (see "Left out").
- **Scheduling** (`Config`, `Scheduler`). Database entries resolve to jobs
  (port, container and timeout precedence), both for `now` and for the daemon.
  The daily `HH:MM` and `interval_hours` due predicates are modelled. The
  daemon's `last_run` map is the field of the class `Daemon`, and its poll tick
  is proved equal to a fold over the (host, database) units. The map is keyed
  by (host, database) only, so a pair configured twice (two servers with the
  same host, or a database listed twice) shares one entry. Within one tick
  the second unit is then suppressed, unless its trigger is `interval_hours`
  of 0 or less (`Scheduler.ZeroIntervalFiresTwiceInTick`). Across ticks the
  pair can be backed up twice on one day, once by each schedule
  (`Scheduler.DuplicateKeyFiresTwice`).
- **Restore references** (`Restore`). A `host/name` reference is split and
  checked in the code's order: the file must exist, then the server must be
  known. The database name is read before the first `-`.

Time is in whole seconds, and a day starts at a multiple of 86400. A host
directory is a sequence of `Artifact(name, mtime, size)` values with distinct
names. `max_gb` is a real number, and the byte bound is
`floor(max_gb * 1024^3)`. For integer totals this gives the same comparison as
the real product (`Policy.MaxBytesExact`).

The model follows `backup.py` in these details, which a reader might expect
to be otherwise:

- The sequencer takes the maximum plus one, not the smallest unused number.
- There is no wildcard "all databases" entry: every database is named.
- A malformed `schedule` is never due. It is reported on every tick, not once.
- A deletion error inside retention is not isolated per file (see "Left out").

## Model

| member | source | states |
|---|---|---|
| Text.Split | backup.py:112 | `str.split` on one character gives at least one piece, and no piece contains the separator |
| Text.JoinSplit | backup.py:196 | joining the pieces of `split(sep)` with `sep` gives back the original text |
| Text.SplitJoin | backup.py:196 | splitting a `sep`-join of `sep`-free pieces gives the pieces back |
| Text.SplitCount | backup.py:196 | `split` yields one more piece than the text has separators, so unpacking into two names succeeds exactly when there is one `/` |
| Text.SplitAt | backup.py:196 | splitting `a + sep + b` is splitting `a` followed by splitting `b` |
| Text.FirstFieldIsPrefix | backup.py:209 | `split("-")[0]` is a prefix of the text, holds no `-`, and is followed by `-` when shorter than the text |
| Text.FirstFieldAt | backup.py:209 | for a `sep`-free `a`, the first field of `a + sep + b` is `a` |
| Text.LastFieldAt | backup.py:112 | for a `sep`-free `b`, the last field of `a + sep + b` is `b` |
| Text.ParseInt | backup.py:113 | `int()` succeeds only on non-empty text, and never yields a negative value from unsigned digits |
| Text.Decimal | backup.py:119 | the decimal text of a number is a non-empty run of digits |
| Text.ParseDecimal | backup.py:112-119 | `int(str(n)) == n`: the text written into a file name parses back to the number |
| Artifacts.FileName | backup.py:119 | defines the backup file name `<db>-<DD-MM-YYYY>-<n>.sql.gz` |
| Artifacts.IsManaged | backup.py:59-62 | defines the retention glob `<db>-[0-9][0-9]-[0-9][0-9]-[0-9][0-9][0-9][0-9]-*.sql.gz` |
| Artifacts.IsSameDay | backup.py:105 | defines the sequencer glob `<db>-<date>-*.sql.gz` |
| Artifacts.TrailingNumber | backup.py:112-113 | the trailing number read from a name, when it parses, is non-negative |
| Artifacts.TrailingNumberOfFileName | backup.py:112-119 | the number read back from the name `<db>-<date>-<n>.sql.gz` is `n` |
| Artifacts.FileNameIsSameDay | backup.py:105-119 | a name built for a day matches that day's sequencer glob |
| Artifacts.FileNameIsManaged | backup.py:62 | a name built with a `DD-MM-YYYY` date matches the retention glob of its database |
| Artifacts.ManagedIgnoresLongerNames | backup.py:59-62 | backups of a database named `<db>-<x>…`, with `x` not a digit, are invisible to the retention pass of `<db>` |
| Sequencer.SameDayNames | backup.py:105 | exactly the listed names that match `<db>-<date>-*.sql.gz` |
| Sequencer.ParsedNumbers | backup.py:109-115 | every trailing number that parses is collected, and nothing else is |
| Sequencer.Max | backup.py:117 | `max(nums)` is an element of `nums` and bounds every element |
| Sequencer.NextNumber | backup.py:106-117 | 1 when no number of the day parses; otherwise one past a parsed number and above every parsed number |
| Sequencer.NextSequence | backup.py:104-117 | the scanning loop returns `NextNumber` of the listing |
| Sequencer.NextFileNameIsFresh | backup.py:104-120 | the file name built from the next number is not already in the directory |
| Sequencer.UnparseableNameIgnored | backup.py:111-115 | a file whose trailing number does not parse does not change the next number |
| Sequencer.SameDayNamesAppend | backup.py:105 | a further listed name is found by the glob exactly when it matches |
| Sequencer.ThirdBackupOfTheDay | backup.py:104-119 | with backups 1 and 2 of the day present, the next is number 3 |
| Sequencer.FirstBackupOfTheDay | backup.py:106-107 | with no file of the day, the next is number 1 |
| Listing.Managed | backup.py:62 | exactly the files matching the database's retention glob; distinct names stay distinct |
| Listing.Others | backup.py:62 | exactly the files the retention glob does not match |
| Listing.Without | backup.py:67-69 | the listing after deleting the named files: exactly the other files, no longer than before |
| Listing.Insert | backup.py:61-65 | inserting into a newest-first listing keeps it newest first and adds exactly that file |
| Listing.NewestFirst | backup.py:61-65 | `sorted(key=mtime, reverse=True)` is ordered newest first and is a permutation of its input |
| Listing.PermutationNames | backup.py:61-65 | reordering keeps the set of names |
| Listing.PermutationDistinct | backup.py:61-65 | reordering keeps names distinct |
| Listing.Total | backup.py:80 | defines the sum of the sizes of a listing |
| Listing.TotalAppend | backup.py:80 | the size sum of a concatenation is the sum of the sums |
| Listing.TotalPermutation | backup.py:80 | the size sum does not depend on the listing order |
| Listing.WithoutTail | backup.py:67-69 | deleting the tail `backups[k:]` of the managed files leaves exactly the head `backups[:k]` |
| Listing.WithoutWithout | backup.py:67-69 | deleting one set of names and then another is deleting their union |
| Listing.OthersWithout | backup.py:62-69 | deleting only files the glob matches leaves every other file where it was, in order |
| Listing.ManagedWithout | backup.py:67-77 | re-listing after deleting finds the earlier listing's files less the deleted ones |
| Listing.UnlinkNext | backup.py:68-69 | one more unlink in the count loop is one more name in the deleted set |
| Listing.UnlinkLast | backup.py:91-94 | popping and unlinking the oldest adds it to the deleted suffix |
| Listing.BackupsFromListing | backup.py:73-77 | the re-listed backups have distinct names, all present in the directory |
| Policy.PolicyFor | backup.py:41-46 | the override named exactly `db` if any; else the configured default; else `keep_last: 10, max_gb: 5.0` |
| Policy.LimitsOf | backup.py:55-56 | `keep_last` falls back to 10; the byte bound is `max_gb` (falling back to 5.0) times 1024³, rounded down |
| Policy.MaxBytesExact | backup.py:56 | an integer total exceeds the rounded-down bound exactly when it exceeds `max_gb * 1024³` |
| Policy.OverrideIsExactName | backup.py:44-45 | an override for another database name never changes the policy of `db` |
| Policy.TestPolicyLookup | tests/test_backup_logic.py:27-54 | `website_db` gets `keep_last` 2, `important_db` gets 5, and the test default yields a 1073-byte bound |
| Retention.Backups | backup.py:61-65 | defines the listing step: the files the retention glob matches, newest first |
| Retention.PastLimit | backup.py:67 | defines `backups[keep_last:]`, empty when `keep_last` reaches past the end |
| Retention.CountPhase | backup.py:61-70 | defines the directory after the count rule: the files of `backups[keep_last:]` are deleted |
| Retention.SizePhase | backup.py:72-95 | defines the directory after the size rule: the re-listed backups past the size rule's result are deleted |
| Retention.Retain | backup.py:48-95 | defines the directory after a whole pass: the count rule, then the size rule on the result |
| Retention.SizePrune | backup.py:89-95 | the size rule keeps a prefix (the newest) that fits the bound or is empty, and keeping one more would exceed it |
| Retention.DeleteTail | backup.py:67-69 | deleting `backups[k:]` keeps the other files and leaves the `k` newest as the database's backups |
| Retention.CountPhaseKeepsNewest | backup.py:61-69 | after the count rule the database's backups are the `keep_last` newest, and other files are untouched |
| Retention.SizePhaseKeepsPrefix | backup.py:73-95 | after the size rule the backups are a newest-first prefix of the re-listing; other files are untouched |
| Retention.RetainLeavesOthers | backup.py:59-77 | a pass never touches a file that its database's glob does not match, and names stay distinct |
| Retention.RetainBounds | backup.py:48-95 | afterwards at most `keep_last` backups remain, no more than before, and they fit the byte bound unless none remain |
| Retention.RetainKeepsNewest | backup.py:61-95 | every backup that survives is at least as new as every backup deleted |
| Retention.KeepNoneDeletesAll | backup.py:67 | with `keep_last: 0` every backup of the database is deleted |
| Retention.WithinLimitsUnchanged | backup.py:67-91 | a directory already within both limits is left unchanged |
| Retention.RetainIdempotent | backup.py:48-95 | a second pass right after the first deletes nothing |
| Retention.RetainWithinBudget | backup.py:67-91 | when the `keep_last` newest fit the bound, exactly `min(keep_last, N)` backups remain |
| Retention.RetainUniform | backup.py:67-91 | with equally sized backups of which `min(keep_last, N)` fit the bound, exactly that many remain |
| Retention.CountScenarioKeepsTwo | tests/test_backup_logic.py:56-78 | five 13-byte backups under `keep_last: 2, max_gb: 0.000001` leave exactly 2 |
| Storage.HostDirectory.Unlink | backup.py:69 | the file must exist; afterwards exactly that file is gone |
| Storage.HostDirectory.UnlinkAll | backup.py:67-70 | unlinking `to_delete` in order finds each file present and deletes exactly those names |
| Storage.HostDirectory.ApplyCountRule | backup.py:61-70 | the count rule unlinks `backups[keep_last:]` and ends in the count-rule state |
| Storage.HeadTotalIsTotal | backup.py:80-93 | the loop's running total of the head `backups[:k]` is the size of that head |
| Storage.HeadKeptIsSizePrune | backup.py:91-95 | the number of backups the pop loop keeps from the head `backups[:k]` is the length of the size rule's result on it |
| Storage.PoppedIsWithout | backup.py:92-94 | popping and unlinking files one at a time deletes exactly the popped names |
| Storage.PopStep | backup.py:91-95 | each pass of the pop loop finds the popped file still present, lowers the total by its size and keeps the loop's eventual result |
| Storage.HostDirectory.PopOldest | backup.py:80-95 | the while loop pops and unlinks the oldest backup while the total exceeds the bound, and deletes exactly the backups past the size rule's result |
| Storage.HostDirectory.ApplySizeRule | backup.py:73-95 | the size rule re-lists and runs the pop loop, and ends in the size-rule state |
| Storage.HostDirectory.ApplyRetention | backup.py:48-95 | the pass ends in `Retain` of the old listing under the database's policy, and names stay distinct |
| Storage.HostDirectory.RunBackup | backup.py:97-174 | the file is named with the next sequence number and is fresh; success keeps it and applies retention; failure removes it and restores the listing; the event matches the outcome |
| Config.JobFor | backup.py:251-267 | the job's host, user, name and container come from the configuration; the port defaults to 3306; the entry's timeout beats the server's, which beats 3600 |
| Config.ServerJobs | backup.py:251-268 | one job per database entry of a server, in order |
| Config.NowJobs | backup.py:249-268 | `now` runs a job for every database entry of every server, and only those |
| Scheduler.DayStart | backup.py:319 | the midnight of the day of `t`: a multiple of 86400 at most `t` and within a day of it |
| Scheduler.ParseClock | backup.py:318 | `strptime(text, "%H:%M")` yields a minute of the day, below 1440 |
| Scheduler.ParseFormatClock | backup.py:318 | every `HH:MM` text of a minute of the day parses back to that minute |
| Scheduler.DailyAtMostOncePerDay | backup.py:319-323 | a daily unit that ran at or after today's trigger instant is not due again that day |
| Scheduler.DailyDueNextDay | backup.py:319-323 | a daily unit that last ran on an earlier day is due once today's trigger instant has passed |
| Scheduler.MidnightOf | backup.py:319 | every instant of a day has that day's midnight as its day start |
| Scheduler.DailyTwoAmExample | backup.py:315-323 | for `"02:00"`: due at 02:05; not due at 02:10 after running at 02:05; due at 02:05 the next day |
| Scheduler.IntervalSixHoursExample | backup.py:327-330 | for `interval_hours: 6`: due if never run; not after 5h59m; due at exactly 6h |
| Scheduler.TriggerOf | backup.py:315-330 | defines a server's trigger: `schedule` wins over `interval_hours`; with neither the unit is never due |
| Scheduler.TriggerInstant | backup.py:318-319 | defines today's instant of the scheduled time of day |
| Scheduler.FixedDue | backup.py:321-323 | defines the daily test: the trigger instant has passed and the unit has not run since it |
| Scheduler.IntervalDue | backup.py:327-330 | defines the interval test: never run, or at least `hours` hours since the last run |
| Scheduler.ShouldRun | backup.py:312-330 | defines `should_run` for a trigger; a schedule that does not parse is never due |
| Scheduler.Units | backup.py:302-310 | defines the (trigger, job) units a tick walks, server by server and entry by entry |
| Scheduler.Step | backup.py:312-343 | defines one pass of the inner loop: a due unit's job runs and `last_run[key]` becomes `now` |
| Scheduler.TickUnits | backup.py:301-343 | defines one poll tick as the loop body applied to each unit in order |
| Scheduler.DueJobs | backup.py:312-330 | defines the reference result: the jobs of the units due by the map as it was when the tick started |
| Scheduler.ServerUnits | backup.py:302-310 | one unit per database entry, with the server's trigger and the job of that entry |
| Scheduler.TickRecords | backup.py:332-343 | after a tick exactly the keys of the dispatched jobs map to `now`, and every other key keeps its entry |
| Scheduler.TickJobsFromUnits | backup.py:300-343 | a tick only dispatches jobs of the configured units |
| Scheduler.TickIsDueFilter | backup.py:300-343 | with distinct (host, database) keys, a tick dispatches exactly the units due by the `last_run` map at its start, in order |
| Scheduler.DueKeyDispatched | backup.py:312-343 | a unit due when the tick starts leaves its key among the dispatched keys, whether it ran itself or an earlier unit with that key did |
| Scheduler.DailyNotRepeatedSameDay | backup.py:313-343 | a daily unit that was due at a tick is not due again at any later time of the same day, whatever the other units |
| Scheduler.DuplicateKeyFiresTwice | backup.py:313-343 | one (host, database) pair under daily schedules 01:00 and 03:00 is backed up at the 02:00 tick and again at the 03:00 tick of the same day |
| Scheduler.ZeroIntervalFiresTwiceInTick | backup.py:327-343 | a pair listed twice under `interval_hours` of 0 or less, last run no later than the tick (or never), is backed up twice in the same tick |
| Scheduler.DueJobsHasDue | backup.py:312-332 | every unit that is due is among the due jobs |
| Scheduler.UnitsAreNowJobs | backup.py:300-310 | the daemon's units carry the same jobs as `now`, in the same order |
| Scheduler.Daemon.constructor | backup.py:298 | the daemon starts with an empty `last_run` map |
| Scheduler.Daemon.Tick | backup.py:300-343 | the nested loops return the fold's dispatched jobs and leave the fold's `last_run` map |
| Restore.WithExtension | backup.py:197-200 | the file name ends with `.sql.gz`; the extension is appended exactly when it is missing |
| Restore.WithExtensionIdempotent | backup.py:197-200 | appending the extension twice is appending it once |
| Restore.FindServer | backup.py:212-216 | the first server whose host equals the reference's host, or none when no server has it |
| Restore.ResolveReference | backup.py:193-220 | a resolved plan names a stored file and a server with that host; the reference is `host/file` or `host/file` without the extension; no `-` in the database name |
| Restore.InvalidIffNotOneSlash | backup.py:196-203 | the reference is rejected as malformed exactly when it does not hold exactly one `/` |
| Restore.ResolveWellFormed | backup.py:205-220 | a missing file is reported before an unknown host; otherwise the first matching server and the name before the first `-` are used |
| Restore.Stem | backup.py:194-198 | the reference form without extension, plus `.sql.gz`, is the backup's file name, and the stem lacks the extension |
| Restore.FileNameHasNoSlash | backup.py:119 | a backup's file name holds no `/` when its database name holds none |
| Restore.ResolveNamed | backup.py:196-209 | a reference `host/<db>-<rest>` resolves to that host and to database `db` when `db` has no `-` |
| Restore.ResolveFileName | backup.py:193-209 | a stored backup's `host/name` reference resolves to that file and to its database when the database name holds no `-` |
| Restore.ResolveStem | backup.py:194-209 | a `host/<db>-DD-MM-YYYY-N` reference without the extension resolves to the same stored file and database as the full name |
| Restore.DashedDatabaseName | backup.py:209 | a backup of `my-db` restores into database `my`; a `-` in a database name is cut there |

## Left out

- The dump and restore processes are not modelled. This covers `mariadb-dump`, `docker exec`, `gzip`, the `mysql` client, the timeout kill and the clean-restore table drop. A dump is given as its outcome (`Completed(size)` or `Failed(error)`), and a restore stops once the reference is resolved.
- Discord notifications are reduced to the `Event` value returned by `RunBackup`. The message templates and the HTTP post are not modelled.
- Configuration loading (YAML), argument parsing, `list_backups` output, console messages and the 60-second sleep are not modelled. The stale-file warning of `apply_retention` only prints, so it is left out too.
- Storage.HostDirectory.Unlink: requires the file to exist, where `Path.unlink` would raise otherwise. The model proves every unlink of the retention pass meets this. The other deletion errors of the file system (permissions) are not modelled. Such an error would escape `apply_retention` into `run_backup`'s handler (backup.py:164-174). By then the success notification has already been sent (backup.py:161-162), so the handler sends a second, failure notification and deletes the fresh backup.
- Policy.LimitsOf: `max_gb` is a real, not a binary float, so float rounding of `max_gb * 1024³` is not modelled. `keep_last` is a natural number, so Python's negative slice `backups[-k:]` is not modelled.
- Text.ParseInt: accepts an optional sign and ASCII digits only. Python `int()` also accepts surrounding whitespace, `_` separators and non-ASCII digits. The `*` of the sequencer's glob matches names such as `db-18-01-2026-1_0.sql.gz` or `db-18-01-2026- 7.sql.gz`, which Python reads as 10 and 7 and the model ignores, so with such foreign files present the next number can differ. Names the tool writes itself never take these forms.
- Listing.NewestFirst: proves the newest-first order and the permutation, not the tie order of files with equal modification times. Glob order is file-system dependent in the source.
- Glob metacharacters inside a database name (`[`, `*`, `?`) are not modelled.
- Scheduler.ParseClock: models `%H:%M` for ASCII text. A `schedule` that is not a string (a YAML integer) would raise `TypeError` in the source, and the model does not cover that.
- Scheduler.IntervalDue: `interval_hours` is an integer. Fractional hours are not modelled.
- Scheduler.DayStart: time is whole seconds since an epoch, and days are 86400 seconds long. Local time zones, daylight-saving shifts and sub-second precision are not modelled.
- A dict database entry without `name` (the source would use `None`) is not modelled. The types require a name.
- `run_backup`'s `mkdir` and `apply_retention`'s early return for a missing directory are not modelled. The directory is always present, so an absent one is an empty listing.
- Restore.ResolveReference: host and file name are compared as plain strings. Path normalisation (`..`, empty components) and the storage root are not modelled.
- Several passes running at once are not modelled, because the source runs everything in one thread.
