# Rawbin backend: a verified model

A Dafny model of the stateful parts of the Rawbin composter backend: the SMS code
service, the alert-threshold cache and the alert task, MQTT ingestion, the history
endpoint, refresh tokens, device pairing and membership, compost cycles and waste logs,
and the firmware version check. `dafny verify dfyconfig.toml` checks all of it.

## How it is modelled

Objects that the program updates in place are classes (`OtpService`, `RedisStore`,
`ConfigStore`, `AlertStore`, `Listener`, `AuthTables`, `DeviceRegistry`, `CompostCycle`,
`CompostTables`). Each method follows the handler it models branch by branch, and its
contract states the complete new state through a specification function or as a run of
a step system. The lemmas are then about that function or step system.

* Clocks are integers passed in by the caller; a Redis key lives while `now < expiry`.
  Time-outs and limits of the settings are positive parameters (`Otp.Settings`) or the
  default constants.
* Failures of Redis, the queue or a commit are boolean parameters, and whether a message
  comes back to the queue is the fate of an execution. `get_db` (`app/db/session.py:50-56`) commits after
  the handler returns and rolls back on any error; every handler ends that way here, so a
  Redis write survives a failed commit and a row does not.
* Hashes, the HMAC and the random draws are functions or values passed in.
* OTP requests, token requests, pairing and membership are one atomic step each, because
  the code takes no lock. The threshold cache, the compost cycles and overlapping MQTT
  messages are interleaved step by step.
* The modules that the alert task imports after persisting
  (`app/workers/tasks/telemetry.py:300-305`) are loaded by then: the notification task when
  the worker starts (`app/workers/celery_app.py:24-27`), the others by the threshold load.
  So nothing after persistence raises, and only a redelivered message runs a finished
  check again.

| module | what it holds |
|---|---|
| `Redis`, `Prelude`, `Readings` | expiring keys; options and results; the sensor row |
| `Otp` | three expiring keys per phone, the record they refine, acceptance and guessing bounds |
| `Thresholds` | effective thresholds, the override loop, evaluation of one sample |
| `ThresholdCache` | readers, writers and the clock interleaved: staleness, convergence, coherence |
| `AlertTask` | loads and PUTs as runs of that protocol, persistence, the queue's retries and redeliveries, soundness |
| `Ingestion`, `ConcurrentIngestion` | insert-or-rollback of one delivery, idempotence, one check per row; the same with messages overlapping |
| `Pipeline` | from MQTT deliveries to stored alert events |
| `Statistics`, `History`, `HistoryExactness`, `RawHistory` | NULL-skipping aggregates, the hourly view, the day rollup and when it reports the mean, the raw tier |
| `Tokens` | refresh-token transactions, chains, single acceptance, conservation |
| `Devices` | membership, the pairing handshake, counting of confirmations |
| `Cycles` | cycle lifecycle under an index-guarded flush, waste attribution |
| `Firmware` | version parsing and comparison |

## What turned out false, and its exact condition

* `put_device_config` says that it invalidates the worker's cache
  (`app/api/v1/devices.py:398`). The DELETE comes before the commit, so a reader in
  between can put the old table back. `StalenessIsReached` gives the run, which meets the
  bound of `BoundedStaleness` up to one time unit; `CoherentIff` says in which states
  every later load is current.
* At most one batch of alert events per check does not hold: messages are acknowledged late
  (`app/workers/celery_app.py:47-48`). One whose worker is lost after the commit of its batch
  is queued again, and so is one that stays unacknowledged past the visibility timeout of
  the Redis broker (`app/core/config.py:80-82`); then the batch is written twice.
  `BatchesBoundedIff` gives the exact bound: one batch and one more for each such
  redelivery, and none at all for a reading that no limits that can be set find at fault.
* The average of hourly averages is not the mean of the day: `AverageCanBeWrong` is a table
  of three rows. `ReportsMeanIffEvenHours` says for which hourly counts it always is;
  `DayAverages` bounds the difference for the rest.
* With overlapping messages a device need not show the version of its last stored row:
  `OlderVersionCanStay` is such a run. `FirmwareIsLastStoredIff` gives the condition on the
  schedule.
* The raw tier can cut a window off. `NeverTruncatesIff` gives the spacing of readings
  from which on it cannot: anything above 86.4 seconds.
* The version comparison is not SemVer precedence for short versions: "2" and "2.0" are
  offered 2.0.0 as an update (`UpdateOfferedIff`).

The code and its own text differ in two more places, and the model follows the code: the
header of the alert task speaks of the device owner (`app/workers/tasks/telemetry.py:11`)
while every member is notified (lines 298-344), and the device model speaks of a hashed
secret (`app/db/models/device.py:10`) while the column holds a reversible one (line 43).

## Model

| member | source | states |
|---|---|---|
| `Otp.OtpService.IssueCode` | app/services/otp.py:50-71 | In a sequential run it is refused exactly when the log shows a code sent to the phone less than a cooldown ago; otherwise the new code replaces the old one. The keys of every phone go on refining its record. |
| `Otp.OtpService.VerifyCode` | app/services/otp.py:74-101 | In a sequential run it is true exactly when the log says that the code deserves it; it burns, counts or leaves the code so that the keys still refine the record, and logs a comparison only where one is made. A live code never has a spent counter, so the first limit check never fires. |
| `Otp.VerifyKeepsRefinement` | app/services/otp.py:84-101 | What verification does to one phone's keys keeps the keys of every phone in step with its record. |
| `Otp.RecordSummarisesLog` | app/services/otp.py:58-101 | In every sequential run the record holds the latest send of the log, whether it was accepted since, and, while the code is young, its wrong tries up to the limit. |
| `Otp.VerifyAcceptsIffDeserved` | app/services/otp.py:84-101 | Verification succeeds if and only if the log of the run shows that the latest code sent has that hash, is younger than its time to live, was not accepted since, and has fewer than the maximum of wrong tries. |
| `Otp.RefusedIffSentRecently` | app/services/otp.py:58-70 | A request is refused if and only if the latest code of the log was sent less than a cooldown before; otherwise the log gains that code as sent. |
| `Otp.LogTellsEvents` | app/services/otp.py:50-101 | The log has one outcome for each request, in order, of its own phone and instant, and with the requested hash for what was sent. |
| `Otp.ComparisonWindowBound` | app/services/otp.py:58-101 | Over every sequential run, the comparisons logged for a phone in any window of length T number at most maxAttempts * (T / cooldown + 2). |
| `Otp.ComparisonsBounded` | app/services/otp.py:58-71 | From any records, the comparisons up to an instant are bounded by what is left of the current code plus one full budget for each cooldown period still to come. |
| `Thresholds.Effective` | app/api/v1/devices.py:368-382 | The effective table has every key: the column's value where it is set, and the default otherwise, which is what the configuration endpoint reports. |
| `Thresholds.Override` | app/workers/tasks/telemetry.py:78-101 | The worker's loop over the columns of a row produces exactly the effective table of that row. |
| `Thresholds.ContributionExact` | app/workers/tasks/telemetry.py:190-241 | A metric contributes one alert exactly when its value is strictly outside its limits: of the value and the limit breached, critical only for a temperature above its maximum. |
| `Thresholds.Evaluate` | app/workers/tasks/telemetry.py:167-243 | The imperative comparison yields the contributions of the four metrics, in order. |
| `Thresholds.EvaluationExact` | app/workers/tasks/telemetry.py:167-243 | The alerts are exactly the justified ones, each sensor compared with its own limits, in the order of the metrics and at most one for each; a metric has one if and only if it is out of its limits. |
| `Thresholds.DefaultFaults` | app/workers/tasks/telemetry.py:27-35 | With nothing configured a reading raises alerts if and only if it is outside 40 to 80 degrees, above 5000 ppm, outside 40 to 80 per cent, or outside pH 5.0 to 8.5. |
| `Thresholds.PossibleIffEffective` | app/schemas/device.py:146-152 | The tables within the schema's ranges are exactly the effective tables of the rows that requests can set. |
| `Thresholds.CanBreachIff` | app/workers/tasks/telemetry.py:190-241 | Some admissible configuration finds a reading at fault if and only if it measures temperature, humidity or pH, or a carbon dioxide above zero. |
| `ThresholdCache.InvStep` | app/workers/tasks/telemetry.py:67-118 | Every step of readers, writers and clock keeps the invariant that ties the cached table, tables held in flight and tables served to the commit history and the failed reads. |
| `ThresholdCache.BoundedStaleness` | app/workers/tasks/telemetry.py:64-118 | In every interleaving a table served at t is the effective table of a row that was committed at some instant of [t - 300 - d, t], or the globals of a database read that failed in that window. |
| `ThresholdCache.QuietLoadsConverge` | app/api/v1/devices.py:364-383 | When no commit and no failed read falls in the window before a load, the load equals, key by key, what the configuration endpoint reports. |
| `ThresholdCache.StalenessIsReached` | app/api/v1/devices.py:418-421 | For every d and every new configuration there is a run in which the old table is served 300 + d - 1 after the commit that replaced it. |
| `ThresholdCache.LoadsArePossible` | app/schemas/device.py:146-152 | When requests keep to the schema's ranges, every table ever loaded does, in every interleaving. |
| `ThresholdCache.CoherenceKept` | app/workers/tasks/telemetry.py:68-118 | From a coherent state every load up to the next commit or failed read is the effective table of the committed row. |
| `ThresholdCache.CoherentIff` | app/workers/tasks/telemetry.py:68-118 | All loads up to the next commit or failed read are current if and only if neither the live entry nor a reader that can still finish holds another table. |
| `ThresholdCache.UndisturbedPutIsCoherent` | app/api/v1/devices.py:404-421 | When no reader is in flight and none reads the database between a DELETE and its commit, the state after the commit is coherent. |
| `ThresholdCache.UncontestedPutWritesBody` | app/api/v1/devices.py:404-418 | Writing only the columns that changed against the selected row leaves exactly the request body when nobody else committed since. |
| `ThresholdCache.ContestedPutWritesBodyIff` | app/api/v1/devices.py:404-437 | After a contested PUT the row is the body that its response reports if and only if, on every column the body left as it was selected, the other PUT did so as well. |
| `AlertTask.ConfigStore.LoadThresholds` | app/workers/tasks/telemetry.py:43-118 | Hit, miss, failed GET, failed read, failed commit and failed SETEX: the table returned, the cache afterwards, and that the call is a run of the protocol that adds this load. |
| `AlertTask.ConfigStore.PutDeviceConfig` | app/api/v1/devices.py:391-437 | The row becomes the body exactly when neither DELETE nor commit raises; the cache entry goes even when the commit fails; the call is a run of the protocol. |
| `AlertTask.MissIsARun` | app/workers/tasks/telemetry.py:77-118 | A load that misses, uninterrupted, is a run with no delay between database read, SETEX and return. |
| `AlertTask.PutIsARun` | app/api/v1/devices.py:404-421 | An uninterrupted PUT is a run that clears the cache and commits the body. |
| `AlertTask.AlertStore.PersistAlerts` | app/workers/tasks/telemetry.py:123-162 | One event per alert, in order and with the device and reading time, or none at all when the session raises. |
| `AlertTask.AlertStore.Check` | app/workers/tasks/telemetry.py:276-364 | One execution of the task body writes the alerts of its table unless it raised, was given up or failed to persist, and asks for a retry exactly when it raised before persisting. |
| `AlertTask.AlertStore.Deliver` | app/workers/tasks/telemetry.py:248-364 | The events of one check, over its retries and the redeliveries of its messages, are the batches its executions wrote, in order. |
| `AlertTask.FailuresAreRetried` | app/workers/tasks/telemetry.py:248-254 | Executions that raise before writing, mixed with any that are given up, leave a message with three retries less the raises, and nothing after the fourth raise; none of them writes. |
| `AlertTask.RetriedCheckWrites` | app/workers/tasks/telemetry.py:286-364 | After at most three such raises an execution that runs to its end writes exactly its alerts, unless persisting fails, and the check is over. |
| `AlertTask.FourthRaiseIsLast` | app/workers/tasks/telemetry.py:251-253 | After four raises nothing is ever written for the check. |
| `AlertTask.QueueLaw` | app/workers/celery_app.py:47-48 | Any execution uses up its own message and no other; the message comes back unless acknowledged, and a raise with retries left queues one with one retry less. |
| `AlertTask.BatchesBounded` | app/workers/celery_app.py:47-48 | Over all executions of one check, the batches written and the messages still queued number at most one, and one more for each message redelivered after its task ran. |
| `AlertTask.RedeliveriesAreReached` | app/workers/celery_app.py:47-48 | For any number n of such redeliveries, a reading that limits in range can find at fault has executions that write n + 1 batches. |
| `AlertTask.BatchesBoundedIff` | app/workers/tasks/telemetry.py:276-364 | With at most n redeliveries a check writes at most m batches, whatever its executions load, if and only if n < m or no admissible configuration finds the reading at fault. |
| `AlertTask.DispatchPush` | app/workers/tasks/telemetry.py:307-350 | Push messages go to members with a token, each once and in query order; any such member left out means that an enqueue failed, and comes after all those sent to. |
| `AlertTask.AlertsAreSound` | app/workers/tasks/telemetry.py:276-284 | In every interleaving, each alert raised on a served table strictly breaches a limit that was in effect within the staleness window, or a global default a failed read put there. |
| `AlertTask.EventSource` | app/workers/tasks/telemetry.py:276-296 | Every event a check leaves behind was written by one of its executions, which had taken a queued message and found the alert on its own table. |
| `AlertTask.EventsIff` | app/workers/tasks/telemetry.py:276-296 | A check leaves an event if and only if some execution took a queued message, ran to its end and persisted, and the alert is justified on that execution's table. |
| `AlertTask.DeliveredEventsAreSound` | app/workers/tasks/telemetry.py:276-364 | Each of these events carries the device and reading time, and is justified within the staleness window of the load of the very execution that wrote it. |
| `Ingestion.Listener.ProcessTelemetry` | app/core/mqtt.py:91-129 | A known device, a new key and a successful commit store the row, its version if it is not empty, and the check if it can be enqueued; anything else changes nothing. |
| `Ingestion.DuplicatesChangeNothing` | app/core/mqtt.py:94-129 | Processing all deliveries equals processing only the first of each unseen key, for any set of keys seen that covers the stored rows. |
| `Ingestion.IngestionIsIdempotent` | app/core/mqtt.py:94-129 | From any tables, all deliveries leave the readings, the firmware versions and the requested checks that the first delivery of each new key leaves. |
| `Ingestion.FirstsAreDistinct` | app/db/models/sensor_reading.py:56-68 | That selection has at most one delivery for each device and time, and none of a key seen before. |
| `Ingestion.FirmwareIsLastStored` | app/core/mqtt.py:116-120 | When messages do not overlap: a device shows the version of its last stored row that reports one, or what it showed before. |
| `Ingestion.OneCheckPerStoredRow` | app/core/mqtt.py:119-152 | Every requested check is for a stored row and no row is checked twice; rejected deliveries add no row; when no enqueue fails the checks are exactly the stored rows. |
| `ConcurrentIngestion.CommitOrderDecides` | app/core/mqtt.py:85-129 | However messages overlap, rows and devices are those of processing the same deliveries one by one in commit order. |
| `ConcurrentIngestion.AccountedRun` | app/core/mqtt.py:119-146 | In every overlapping run, with commit and enqueue as separate steps: checks are for stored rows, no row is checked twice, and each saved message still has its own check to ask for. |
| `ConcurrentIngestion.OverlapKeepsIdempotence` | app/core/mqtt.py:85-146 | However messages overlap, readings are those of the first delivery of each new key to commit, and checks are the same but for their order. |
| `ConcurrentIngestion.FirmwareIsLastStoredIff` | app/core/mqtt.py:94-120 | After any overlapping run, a device shows the version of its last stored row that reports one if and only if that row's message was not overtaken: selected while its own version was in place, with another version the last one committed between its SELECT and its commit. |
| `ConcurrentIngestion.NoOverlapNoOvertaking` | app/core/mqtt.py:94-120 | When a message of the device is selected only with no other one awaiting its commit, none is overtaken and the device shows that version. |
| `ConcurrentIngestion.OlderVersionCanStay` | app/core/mqtt.py:85-120 | A run of two overlapping messages leaves the device on the version of the earlier row. |
| `ConcurrentIngestion.AloneIsProcess` | app/core/mqtt.py:94-129 | A message that nothing interrupts is the one transaction of the atomic form. |
| `Pipeline.StoredEventsAreFounded` | app/core/mqtt.py:119-146 | For any overlapping deliveries and any executions of the checks they request: every stored event names the device and time of a stored row, carries the row's own column of that metric, and is justified within the staleness window of the load of the execution, of that row's own check, that wrote it. |
| `Pipeline.StoredEventsIff` | app/core/mqtt.py:136-146 | The store has an event about a metric of a checked row if and only if some execution of its check ran to its end on a table whose limits that column of the row lies outside. |
| `Pipeline.EventIffFault` | app/workers/tasks/telemetry.py:190-241 | The same from any tables whose checks follow rows. |
| `Pipeline.EventsOfRow` | app/workers/tasks/telemetry.py:138-152 | The stored events that name a row are exactly the batches of its checks, in order. |
| `Pipeline.OneBatchPerRow` | app/core/mqtt.py:119-146 | However often and however overlapped its message is delivered, a row gets at most one batch, and one more for each redelivery of its check; what is not stored gets none. |
| `Statistics.MeanOfMeansBounded` | app/api/v1/telemetry.py:145-152 | An average of group averages lies between any bounds of the values, so within their spread of the true mean. |
| `Statistics.EqualCountsAreExact` | app/api/v1/telemetry.py:145-152 | With equally many values in each group it is the true mean. |
| `Statistics.ExactIffEqualCounts` | app/api/v1/telemetry.py:145-152 | For given group sizes it is the true mean for all values if and only if the sizes are equal. |
| `History.DayOfHour` | app/api/v1/telemetry.py:145-155 | The day of an instant is the day of its hour bucket. |
| `History.BucketHolds` | app/api/v1/telemetry.py:145-155 | Buckets start on whole UTC hours and days and hold the instants that follow, up to the next one. |
| `History.HourListed` | app/api/v1/telemetry.py:117-127 | The hour tier lists exactly the hours of the device's rows that lie in the window. |
| `History.DaysListed` | app/api/v1/telemetry.py:143-158 | The day tier lists exactly the days with a reading whose hour bucket lies in the window. |
| `History.HoursAscend` | app/api/v1/telemetry.py:119-125 | Each hour once, in ascending order. |
| `History.DaysAscend` | app/api/v1/telemetry.py:153-155 | Each day once, in ascending order. |
| `History.DayExtremesAreExact` | app/api/v1/telemetry.py:147-148 | A day's minimum and maximum are those of the raw non-null temperatures it covers, null exactly when there are none. |
| `History.GroupsPartition` | alembic/versions/20260612_1123_ebb4657960fd_timescaledb_retention_and_compression_.py:92-106 | The non-null values of the hourly groups are, in sum and number, those of the rows in those hours. |
| `History.DayAverages` | app/api/v1/telemetry.py:145-152 | For every metric: a day's average is null exactly when no value is covered; otherwise it lies between the raw extremes, differs from the raw mean by at most their spread, and equals it when all hours with data have equally many values. |
| `History.HourColumns` | alembic/versions/20260612_1123_ebb4657960fd_timescaledb_retention_and_compression_.py:92-106 | A point of the hour tier holds, under each column's own name, the average of that column over the rows of the hour, and the extremes of the temperature. |
| `History.DayColumns` | app/api/v1/telemetry.py:145-152 | A point of the day tier holds the exact extremes of the temperature and, under each column's own name, an average that is null exactly when the column is, and within its extremes, over the rows the day covers. |
| `HistoryExactness.TableAverages` | app/api/v1/telemetry.py:143-158 | For any values in any hours of a day there is a table on which the day tier averages the averages of exactly those groups. |
| `HistoryExactness.AverageCanBeWrong` | app/api/v1/telemetry.py:145-152 | For every metric there is a table whose day tier reports 1/2 where the mean of the day is 2/3. |
| `HistoryExactness.ReportsMeanIffEvenHours` | app/api/v1/telemetry.py:143-158 | For the 24 hourly counts of non-null values of a day: the day tier reports the mean of the day for every table and window with these counts if and only if the counts that are not zero are equal. |
| `RawHistory.RawTierIsEarliest` | app/api/v1/telemetry.py:90-100 | Strictly ascending in time, rows of the closed window only, all of them or exactly 1000, and every row left out is later than every row returned. |
| `RawHistory.ResolveWindow` | app/api/v1/telemetry.py:72-86 | A window given in full is accepted exactly when it is not empty and, for raw rows, at most 24 hours; a missing end is now, a missing start is 24 hours, 7 days or 90 days before now. |
| `RawHistory.SpacedRowsAreComplete` | app/api/v1/telemetry.py:82-100 | When readings are spaced so that a thousand gaps exceed 24 hours, the result is the whole window. |
| `RawHistory.NeverTruncatesIff` | app/api/v1/telemetry.py:72-100 | For a given spacing, no table and no accepted window is ever cut off if and only if the spacing exceeds 86.4 seconds. |
| `Tokens.AuthTables.StoreRefreshToken` | app/services/auth_service.py:30-41 | Adds an unrevoked token of 30 days, or nothing when its hash is taken. |
| `Tokens.AuthTables.RegisterUser` | app/api/v1/auth.py:55-83 | Succeeds exactly when e-mail, phone and hash are free and the commit does; then it adds the active user and its first token, and otherwise changes nothing. |
| `Tokens.AuthTables.LoginUser` | app/api/v1/auth.py:91-109 | Succeeds exactly for a right password of an active user with that e-mail, a free hash and a commit; then it adds a token of that user, and otherwise changes nothing. |
| `Tokens.AuthTables.LoginByOtp` | app/api/v1/auth.py:151-169 | Succeeds exactly for an accepted code, an active user with that phone, a free hash and a commit; then it adds a token of that user, and otherwise changes nothing. |
| `Tokens.AuthTables.RotateToken` | app/api/v1/auth.py:177-192 | Succeeds exactly when a token with the hash is neither revoked nor expired, the new hash is free and the commit succeeds; then it revokes that token and adds its successor of the same user, and otherwise restores it. |
| `Tokens.AuthTables.LogoutToken` | app/api/v1/auth.py:200-208 | Once committed, the token with the hash is revoked; nothing else changes. |
| `Tokens.TokensFormChains` | app/api/v1/auth.py:177-192 | In every sequential run the tokens descending from one login form one chain by replacement, of one user, in which only the last can be unrevoked and expiry never decreases. |
| `Tokens.OneSuccessor` | app/api/v1/auth.py:191-192 | A token is replaced by at most one other. |
| `Tokens.RevokedForGood` | app/api/v1/auth.py:191-208 | Over all runs tokens are only added, keep everything but the flag, and never lose the flag. |
| `Tokens.AcceptedOnce` | app/api/v1/auth.py:179-192 | No two refreshes of a run accept the same token. |
| `Tokens.RefreshAcceptedIff` | app/api/v1/auth.py:179-192 | In every sequential run a refresh is answered with a new token if and only if it commits, its new hash was never issued, and the hash presented was issued under 30 days ago, by a login or another answered refresh, and presented by no answered refresh and no committed logout since. |
| `Tokens.TokensAreConserved` | app/api/v1/auth.py:191-208 | For each user, unrevoked tokens plus effective logouts equal those at the start plus first pairs issued by register, login and OTP; refresh changes neither side. |
| `Devices.DeviceRegistry.AddMember` | app/services/device_access.py:52-64 | Adds the link if it is missing and tells whether it did. |
| `Devices.DeviceRegistry.CreateDemoDevice` | app/api/v1/devices.py:73-108 | A new paired demo device with its creator as member, or no change. |
| `Devices.DeviceRegistry.PairingChallenge` | app/api/v1/devices.py:119-165 | Registers a new device with the caller as member, or re-challenges a known one for its members; the nonce replaces the last one, and stays when the commit fails. |
| `Devices.DeviceRegistry.PairingConfirm` | app/api/v1/devices.py:173-219 | Succeeds exactly for a member, an unpaired device, the live nonce, the digest of that nonce under the stored secret, and a commit; then it pairs the device and spends the nonce, and otherwise leaves the tables as they were. |
| `Devices.DeviceRegistry.ProvisionDeviceSecret` | app/api/v1/devices.py:232-242 | For members: replaces the secret and unpairs the device. |
| `Devices.DeviceRegistry.ShareDevice` | app/api/v1/devices.py:268-291 | For members: links an existing user, or changes nothing. |
| `Devices.DeviceRegistry.RemoveMember` | app/api/v1/devices.py:311-332 | Succeeds exactly for members of a device that has two or more, and a commit; then it unlinks the user, and otherwise changes nothing. |
| `Devices.OwnedStep` | app/api/v1/devices.py:321-328 | Every request keeps a member on each device, hardware ids unique, and the id of each device fixed. |
| `Devices.MembershipIsSafe` | app/services/device_access.py:52-91 | So in every state of every run. |
| `Devices.AccessIsEarned` | app/services/device_access.py:32-49 | A user may act on a device if and only if some request of the run admitted the user (first registration, or a share by a member) and no later one by a member removed the user. |
| `Devices.PairedDevicesAreWitnessed` | app/api/v1/devices.py:180-207 | In every reachable state a paired device, unless it is a demo that nobody has provisioned, has a past confirm of its then latest challenge, under 120 s old, whose response matches under the secret stored now, with no provisioning since. |
| `Devices.PairsIff` | app/api/v1/devices.py:180-207 | In every reachable state a request makes an unpaired device paired if and only if it is a confirm that commits, by a member, with the nonce of the latest challenge, under 120 s old and not used before, and the digest of it under the stored secret. |
| `Devices.SuccessesAreBounded` | app/api/v1/devices.py:182-207 | A nonce succeeds at most as often as it was issued to the device, and confirmations per device never exceed provisions + 1. |
| `Devices.NonceSucceedsOnce` | app/api/v1/devices.py:156-207 | When no two challenges draw the same nonce, each nonce is confirmed at most once. |
| `Cycles.Patched` | app/api/v1/cycles.py:136-151 | A patch keeps the device, sets the status requested, if any, and the end time supplied, else the old one, else now exactly when the cycle moves to completed. |
| `Cycles.CompostCycle.Update` | app/api/v1/cycles.py:138-149 | The field assignments yield the patched row. |
| `Cycles.WriteIsPatch` | app/api/v1/cycles.py:138-151 | Writing only the changed columns over the row that was loaded yields the patched row. |
| `Cycles.PatchCommits` | app/api/v1/cycles.py:138-151 | In any interleaving, what a PATCH flushed gives the row at its commit the status and end time it changed against the row it loaded, and keeps what others committed in the rest. |
| `Cycles.EndingFreesDevice` | app/api/v1/cycles.py:59-71 | Once a PATCH of the active cycle to curing or completed commits, the device has no active cycle, so the pre-check of a new one passes. |
| `Cycles.EntriesOnlyByFlush` | app/db/models/compost_cycle.py:69-77 | No step makes an entry of the partial unique index but a flush which that index admits. |
| `Cycles.InvRun` | app/api/v1/cycles.py:59-151 | Every interleaving keeps the index, the end-time and the attribution invariants, and all rows and logs. |
| `Cycles.OneActiveCycle` | app/api/v1/cycles.py:59-81 | In every interleaving of pre-checks, flushes, commits and aborts no device has two committed active cycles, so the single-row lookup finds exactly the one there is. |
| `Cycles.CompletedCyclesEnded` | app/api/v1/cycles.py:142-149 | Over all runs a completed cycle has an end time, and an end time once set is never cleared. |
| `Cycles.LogsPartition` | app/api/v1/waste.py:105-121 | In every reachable state a device's logs are the disjoint union of its per-cycle listings and its unattributed logs, and no log names another device's cycle. |
| `Cycles.CompostTables.CreateCycle` | app/api/v1/cycles.py:51-83 | Refused exactly when the device has an active cycle; a success adds one active row; the call is a run of the steps. |
| `Cycles.CompostTables.UpdateCycle` | app/api/v1/cycles.py:130-153 | The row gets the status requested and the end time supplied, else the old one, else now when it moves to completed; a move from active to curing or completed leaves the device without an active cycle. Fails exactly on an unknown id, a failed commit, or a move back to active while another cycle is; the call is a run of the steps. |
| `Cycles.CompostTables.CreateWasteLog` | app/api/v1/waste.py:37-85 | Succeeds exactly when the commit does and a cycle given is the device's own; names that cycle, or else the active one if there is one; the call is a run of the steps. |
| `Firmware.VersionRoundTrip` | app/api/v1/ota.py:87-93 | Parsing the dotted decimal spelling of any non-empty list of naturals, with or without a leading v, returns the list. |
| `Firmware.VeesAreIgnored` | app/api/v1/ota.py:91 | The same with any run of the letter v on either side. |
| `Firmware.BlanksAreIgnored` | app/api/v1/ota.py:91 | Blanks around a part do not change how it reads. |
| `Firmware.SignIsRead` | app/api/v1/ota.py:91 | A part may carry a plus or a minus sign. |
| `Firmware.UnderscoreIsIgnored` | app/api/v1/ota.py:91 | A single underscore between digits reads as nothing. |
| `Firmware.LessTransitive` | app/api/v1/ota.py:95 | The tuple comparison is transitive. |
| `Firmware.LessTotal` | app/api/v1/ota.py:95 | It is total. |
| `Firmware.LessIrreflexive` | app/api/v1/ota.py:95 | It is irreflexive. |
| `Firmware.LessIff` | app/api/v1/ota.py:95 | It is the lexicographic order: the first difference decides, and a proper prefix is smaller. |
| `Firmware.ThreePartsAreSemVer` | app/api/v1/ota.py:87-95 | On plain three-part spellings it is the precedence of section 11 of SemVer 2.0.0. |
| `Firmware.UpdateOfferedIff` | app/api/v1/ota.py:87-95 | A version is offered the update exactly when its first number is below 2, or it is "2" or "2.0". |
| `Firmware.UnreadableIsOffered` | app/api/v1/ota.py:88-93 | A missing, empty or malformed version reads as 0.0.0, and is always offered the update. |

## Left out

- Concurrent OTP, token, pairing and membership requests: each is one atomic step, since the code takes no lock whose effect could be stated.
- `_generate_code`, nonces, row ids and token strings: random draws are parameters, and their uniqueness is not claimed; a hash or id that is taken makes the insert fail.
- Devices.DeviceRegistry.CreateDemoDevice: does not insert the 96 mock readings, whose values are random; they belong to the new device alone, so they meet no other row.
- Ambiguous outcomes: a commit that reports an error has not taken effect, and an enqueue sends one message or none.
- bcrypt, JWT, SHA-256, HMAC and Fernet: uninterpreted functions or outcomes; the encrypted secret is modelled by its plaintext, and an undecryptable one does not occur.
- SMS delivery, push delivery, S3 links, the broker connection and the thread bridge: foreign calls.
- TimescaleDB refresh, compression, retention and chunks: the hourly view is its defining query over the current table.
- Floating point: measurements, thresholds and averages are reals.
- `int` on non-ASCII digits and blanks in version strings; ASCII ones, signs and underscores are modelled. Lower-casing of HMAC responses is ASCII too.
- Text: labels, notes, display names, alert messages, notification titles and bodies, log lines.
- Columns of a reading that no property uses: ambient temperature, fill level and weight.
- The cache key of other devices: the protocol is about one device and its key.
- User profile changes, deactivation and account deletion: users only appear by registration; deleting rows would cascade to tokens.
- Membership checks of cycle, waste, history and configuration routes: `Devices` models the check itself.
- Waste pagination and ordering, cycle listings, status snapshot, alert listing, demo and mock-data scripts: they would only add easy members.
