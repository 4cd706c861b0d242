# Product auto take-down: a verified model

This is a Dafny model of the scheduling and execution core of the `tourze/product-auto-down-bundle`
Symfony bundle.

- **Configs.** An operator gives an SPU (a product) a time at which it is automatically taken off
  sale. That is an `AutoDownTimeConfig`: at most one per SPU, active or canceled.
- **Executor.** A periodic executor (`AutoDownService::executeAutoTakeDown`) selects the active
  configs whose time has come. For each one it takes the SPU down: it sets the SPU's `valid` flag
  to `false`. It isolates failures per config and returns how many configs it processed.
- **Audit log.** Every notable event leaves one immutable `AutoDownLog` record, carrying an
  `AutoDownLogAction`: SCHEDULED, EXECUTED, SKIPPED, ERROR or CANCELED.
- **Repositories.** They select, count and purge configs and logs.

The model is layered the way the bundle is.

- **Entities** (`ConfigEntity`, `LogEntity`, `LogAction`) are classes with the source's nullable
  fields and setters. Their stored rows (`ConfigRecord`, `LogRecord`) are datatypes. The action
  enum is a datatype with its backing strings and labels.
- **Tables** (`ConfigTable`, `LogTable`) state each query and each write as a function on
  sequences of rows:
  - the due selection, lookup by SPU, the counts and the purges;
  - the `find*` queries: filter, newest first, limit;
  - the group-by count;
  - `Upsert`, the row-level effect of flushing a config, with its constraint violations;
  - `NewLog`, the effect of flushing a new log.
- **Database** (`Store.Database`) is the database behind Doctrine's entity manager, as one
  object. It holds:
  - the config table and the log table;
  - the SPU catalogue: each existing SPU's nullable `valid` flag;
  - the two id generators.

  Its methods are `persist`/`remove` + `flush` and the bulk `DELETE`s. The ghost `Valid()` is the
  schema's constraints:
  - unique ids;
  - `UNIQ_SPU_ID`;
  - the config-to-SPU foreign key;
  - the log-to-config foreign key.

  Every method keeps `Valid()`.
- **Repositories, log service and service** (`Repositories`, `LogService`,
  `AutoDownServiceModule`) are classes over that one database. Each method's postcondition ties
  the new state to the table functions.
- **The executor's fold** (`Execution.Run`) is the specification of the loop in
  `executeAutoTakeDown`. The method is proved to leave exactly the state `Run` describes. The
  lemmas about `Run` state the executor's promises:
  - one log per due config, with the right ids;
  - the count;
  - only due SPUs change, and only to `false`;
  - failure isolation;
  - what a second run does.

Time is an integer number of seconds. A day is 86400 seconds. `now` and the flush time (`clock`)
are parameters.

## Behaviour of the code worth knowing

- **A skipped config is counted.**
  - `processSingleConfig` returns normally when the SPU is already down (AutoDownService.php:106-110).
  - So `++$executedCount` at AutoDownService.php:76 also counts configs whose SPU was already
    down (`Execution.RunCount`).
  - A second run over the same due configs therefore returns the due count again
    (`Execution.RunTwice`).
- **Reconfiguring keeps a canceled config canceled.**
  - `configureAutoTakeDownTime` sets only the time on an existing config
    (AutoDownService.php:30-36).
  - `isActive` is never reset, so a canceled config stays canceled (`Scheduling.ScheduleEffect`).
- **Processing never deactivates a config.**
  - `processSingleConfig` writes the SPU and a log, never the config (AutoDownService.php:99-118).
  - So an executed or skipped config stays active, and the config table is unchanged by a run
    (`AutoDownServiceModule.AutoDownService.ExecuteAutoTakeDown`).

## Model

| member | source | states |
|---|---|---|
| Text.DecimalRoundTrip | src/Service/AutoDownService.php:40 | the `%d` rendering of any integer is a numeral, and reading it back gives the integer |
| Text.DecimalInjective | src/Service/AutoDownService.php:40 | distinct integers render as distinct `%d` text |
| Text.DecimalPrefixFree | src/Entity/AutoDownTimeConfig.php:47-50 | a `%d` number followed by text that starts with neither a digit nor a minus sign determines both the number and the rest |
| Text.SpuLabelPrefixFree | src/Entity/AutoDownLog.php:60-63 | "SPU-<n><rest>" with a rest that starts with a space determines n and the rest |
| LogAction.AutoDownLogAction.GetItem | src/Enum/AutoDownLogAction.php:36-42 | the item holds the case's backing string and its label, and reading the value back gives the same case |
| LogAction.AutoDownLogAction.ToSelectItem | src/Enum/AutoDownLogAction.php:60-63 | the select item holds the case's backing string and its label, the pair `getItem()` gives, and `tryFrom` of that value gives the case back |
| LogAction.CasesComplete | src/Enum/AutoDownLogAction.php:16-20 | `cases()` lists every one of the five cases |
| LogAction.FromValueOfValue | src/Enum/AutoDownLogAction.php:16-20 | reading back a case's stored backing string gives that case |
| LogAction.ValueOfFromValue | src/Enum/AutoDownLogAction.php:16-20 | `tryFrom` succeeds exactly on the five backing strings, and then inverts the backing value |
| LogAction.ValuesAndLabelsDistinct | src/Enum/AutoDownLogAction.php:16-31 | distinct cases have distinct backing strings and distinct labels |
| LogAction.AllValues | src/Enum/AutoDownLogAction.php:16-20 | the set of backing strings contains every case's value |
| LogAction.GetItems | src/Enum/AutoDownLogAction.php:47-55 | the loop builds a map with exactly five entries: each case's value maps to its label and there are no other keys |
| ConfigEntity.ConfigLabelNamesSpu | src/Entity/AutoDownTimeConfig.php:45-51 | equal config labels mean equal SPU ids (null read as 0) and equal time text |
| ConfigEntity.AutoDownTimeConfig.constructor | src/Entity/AutoDownTimeConfig.php:22-43 | a new config has no id, SPU, time or timestamps and is active by default |
| ConfigEntity.AutoDownTimeConfig.FromRecord | src/Entity/AutoDownTimeConfig.php:22-43 | the managed entity loaded from a row carries exactly that row's fields |
| ConfigEntity.AutoDownTimeConfig.SetSpu | src/Entity/AutoDownTimeConfig.php:63-66 | the SPU afterwards is the one given; every other field is unchanged |
| ConfigEntity.AutoDownTimeConfig.SetAutoTakeDownTime | src/Entity/AutoDownTimeConfig.php:73-76 | the time afterwards is the one given; every other field is unchanged |
| ConfigEntity.AutoDownTimeConfig.SetIsActive | src/Entity/AutoDownTimeConfig.php:83-86 | the active bit afterwards is the one given; every other field is unchanged |
| ConfigEntity.AutoDownTimeConfig.IsCanceled | src/Entity/AutoDownTimeConfig.php:88-96 | canceled exactly when not active |
| ConfigEntity.AutoDownTimeConfig.MarkAsCanceled | src/Entity/AutoDownTimeConfig.php:98-103 | the config becomes inactive and canceled; SPU, time, id and timestamps are unchanged; it returns the same object; the new state does not depend on the old bit, so a second call changes nothing |
| ConfigEntity.AutoDownTimeConfig.ToString | src/Entity/AutoDownTimeConfig.php:45-51 | the label starts with "SPU-" and ends with " 自动下架于 " and the time text |
| LogEntity.LogLabelInjective | src/Entity/AutoDownLog.php:58-64 | equal log labels mean equal SPU ids (null read as 0) and equal actions |
| LogEntity.AutoDownLog.constructor | src/Entity/AutoDownLog.php:27-56 | a new log has every field null |
| LogEntity.AutoDownLog.SetSpuId | src/Entity/AutoDownLog.php:71-74 | the SPU id afterwards is the one given; every other field is unchanged |
| LogEntity.AutoDownLog.SetConfig | src/Entity/AutoDownLog.php:81-84 | the config afterwards is the one given; every other field is unchanged |
| LogEntity.AutoDownLog.SetAction | src/Entity/AutoDownLog.php:91-94 | the action afterwards is the one given; every other field is unchanged |
| LogEntity.AutoDownLog.SetDescription | src/Entity/AutoDownLog.php:101-104 | the description afterwards is the one given, null included; every other field is unchanged |
| LogEntity.AutoDownLog.SetContext | src/Entity/AutoDownLog.php:117-120 | the context afterwards is the one given, null included; every other field is unchanged |
| LogEntity.AutoDownLog.ToString | src/Entity/AutoDownLog.php:58-64 | the label starts with "SPU-" and ends with the action's label, or with nothing when there is no action |
| ConfigTable.DueConfigs | src/Repository/AutoDownTimeConfigRepository.php:28-45 | exactly the active configs whose take-down time is at or before `now` (the bound is inclusive); the selection keeps unique ids and one config per SPU |
| ConfigTable.CountDue | src/Repository/AutoDownTimeConfigRepository.php:69-86 | the count is the size of the due selection for the same `now`, and it is at most the table size |
| ConfigTable.FindBySpu | src/Repository/AutoDownTimeConfigRepository.php:51-64 | a config of that SPU, active or not, from the table; none exactly when the SPU has no config |
| ConfigTable.FindBySpuUnique | src/Repository/AutoDownTimeConfigRepository.php:51-64 | under the unique constraint, the lookup finds the one config of the SPU |
| ConfigTable.PurgeCanceled | src/Repository/AutoDownTimeConfigRepository.php:115-132 | the survivors are exactly the rows that are active or were updated at or after the cutoff; no active config is deleted; the constraints are kept |
| ConfigTable.CountPurgeable | src/Repository/AutoDownTimeConfigRepository.php:115-132 | the reported number plus the survivors is the old table size; the deleted rows and the survivors together are the old table, as a multiset |
| ConfigTable.Upsert | src/Entity/AutoDownTimeConfig.php:16-43 | a flush is refused exactly when one of these holds: the SPU or the time is null; the SPU does not exist; another row already has the SPU; or the entity claims an id that has no row |
| ConfigTable.UpsertRejectsSecondConfig | src/Entity/AutoDownTimeConfig.php:16 | a new config for an SPU that already has one is refused as a unique violation |
| ConfigTable.UpsertInserts | src/Repository/AutoDownTimeConfigRepository.php:91-98 | saving a new config appends exactly one row, with the next id, the entity's fields and both timestamps set to the flush time |
| ConfigTable.UpsertUpdates | src/Repository/AutoDownTimeConfigRepository.php:91-98 | saving a managed config rewrites its own row: same size, same ids, same creation time, the new fields, update time stamped; every other row kept |
| ConfigTable.UpsertKeepsInvariants | src/Entity/AutoDownTimeConfig.php:16 | a successful flush keeps ids unique and one config per SPU, and every row references an existing SPU |
| ConfigTable.RemoveId | src/Repository/AutoDownTimeConfigRepository.php:103-110 | removing an id keeps exactly the rows with other ids; with unique ids one row goes if the id is present and none otherwise |
| LogTable.SortDesc | src/Repository/AutoDownLogRepository.php:33 | `ORDER BY createTime DESC`: newest first, and a permutation of its input |
| LogTable.Insert | src/Repository/AutoDownLogRepository.php:33 | inserting into a newest-first sequence keeps it newest first and adds exactly that log |
| LogTable.Query | src/Repository/AutoDownLogRepository.php:28-87 | the result holds only matching logs from the table, newest first, `min(limit, matches)` of them; every match left out is no newer than any returned; all matches are returned when they fit; no match gives nothing |
| LogTable.TakeNewest | src/Repository/AutoDownLogRepository.php:33-34 | the first k of a newest-first ordering are drawn from the selection and are at least as new as all the others |
| LogTable.NoMatchNoSelection | src/Repository/AutoDownLogRepository.php:28-42 | a key that no log matches selects nothing |
| LogTable.CountAction | src/Repository/AutoDownLogRepository.php:96-101 | the number of logs with an action is the size of their selection |
| LogTable.ActionCountsSum | src/Repository/AutoDownLogRepository.php:96-101 | the five per-action counts add up to the number of logs |
| LogTable.GroupByAction | src/Repository/AutoDownLogRepository.php:96-101 | one row per action that occurs, with its count; absent actions have no row; no action has two rows |
| LogTable.CollectCounts | src/Repository/AutoDownLogRepository.php:104-117 | the `foreach` over the grouped rows builds their value-to-count map |
| LogTable.CountsOfKeys | src/Repository/AutoDownLogRepository.php:104-117 | every key of the built map is the value of some row's action |
| LogTable.CountsOfRows | src/Repository/AutoDownLogRepository.php:104-117 | when no action has two rows, the map holds each row's count under its action's value |
| LogTable.CountsPresent | src/Repository/AutoDownLogRepository.php:94-120 | the map has an entry for an action exactly when the action occurs, and the entry is its number of logs |
| LogTable.CountsFromRows | src/Repository/AutoDownLogRepository.php:94-120 | every entry of the map is the non-zero count of its action |
| LogTable.CountsKeysValid | src/Repository/AutoDownLogRepository.php:94-120 | every key is the backing string of an action |
| LogTable.CountsSum | src/Repository/AutoDownLogRepository.php:94-120 | a map holding exactly the non-zero per-action counts sums to the number of logs |
| LogTable.NoLogsNoRows | src/Repository/AutoDownLogRepository.php:94-120 | an empty table gives no rows and an empty map |
| LogTable.ActionCounts | src/Repository/AutoDownLogRepository.php:94-120 | `countByActions`: it has an entry for an action exactly when the action occurs, and the entry is its count; the keys are backing strings; the values sum to the number of logs; an empty table gives an empty map |
| LogTable.RecentLogs | src/Repository/AutoDownLogRepository.php:149-164 | the survivors are exactly the logs created at or after the cutoff; ids stay unique |
| LogTable.CountStale | src/Repository/AutoDownLogRepository.php:149-164 | the reported number plus the survivors is the old table size; the deleted logs and the survivors together are the old table, as a multiset |
| LogTable.CascadeDelete | src/Entity/AutoDownLog.php:33-36 | deleting configs deletes exactly the logs that reference them; deleting none keeps the table |
| LogTable.NewLog | src/Entity/AutoDownLog.php:27-56 | a new log is refused exactly when its SPU id, config or action is null, or its config does not exist; otherwise the row stores every drafted field unchanged, with the next id and the flush time |
| LogTable.RemoveLogId | src/Repository/AutoDownLogRepository.php:137-144 | removing a log id keeps exactly the logs with other ids |
| Store.Database.PersistConfig | src/Service/AutoDownService.php:37-38 | `persist` + `flush` of a config: the table becomes `Upsert`'s result; on success the entity gets its id and timestamps; on refusal nothing changes; logs and SPUs are untouched; the constraints hold |
| Store.Database.RemoveConfig | src/Repository/AutoDownTimeConfigRepository.php:103-110 | a stored config loses its row and the logs that reference it; a new entity is ignored; an entity with no row is refused |
| Store.Database.PurgeCanceledConfigs | src/Repository/AutoDownTimeConfigRepository.php:119-127 | the bulk delete leaves `PurgeCanceled`'s table and removes the deleted configs' logs; it reports how many configs went |
| Store.Database.PersistLog | src/Service/AutoDownLogService.php:85-86 | a new log becomes exactly one appended row (`NewLog`) and gets its id and creation time; a refused flush writes nothing; a stored log is read-only and nothing is written |
| Store.Database.RemoveLog | src/Repository/AutoDownLogRepository.php:137-144 | a stored log loses exactly its own row; a new entity is ignored; an entity with no row is refused |
| Store.Database.PurgeLogs | src/Repository/AutoDownLogRepository.php:153-159 | the bulk delete leaves `RecentLogs`'s table and reports how many logs went |
| Store.Database.TakeDownSpu | src/Service/AutoDownService.php:112-115 | the SPU's flag becomes `false`; nothing else changes |
| Execution.Step | src/Service/AutoDownService.php:74-90 | one loop pass appends exactly one log, keeps all earlier logs and the SPU set, and adds at most one to the counter |
| Execution.StepEffect | src/Service/AutoDownService.php:99-118 | the step's log has the next id, the config, its SPU, the flush time and the outcome's action (EXECUTED, SKIPPED or ERROR); the counter grows unless processing threw; only a taken-down SPU changes, and only to `false` |
| Execution.StepCases | src/Service/AutoDownService.php:74-90 | without a fault the step is `processSingleConfig`'s effect plus one on the counter; with a fault it is only the ERROR log, with the fault's message as description and its message, file and line as context |
| Execution.Run | src/Service/AutoDownService.php:73-91 | the loop appends one log per due config, never removes a log, keeps the SPU set and counts at most one per config |
| Execution.RunLogEntries | src/Service/AutoDownService.php:73-91 | the i-th appended log belongs to the i-th due config; it has id `first + i`, the config, its SPU and the clock, and it is ERROR exactly when that config's processing threw |
| Execution.RunCountsSucceeded | src/Service/AutoDownService.php:71-93 | the count plus the number of ERROR logs appended equals the number of due configs |
| Execution.RunCount | src/Service/AutoDownService.php:71-76 | the counter grows by exactly the number of due configs whose processing did not throw, executed and skipped alike |
| Execution.RunSpus | src/Service/AutoDownService.php:99-118 | an SPU's flag changes only to `false`, and only if a due config points to it |
| Execution.RunUntouched | src/Service/AutoDownService.php:99-118 | an SPU that no due config points to keeps its flag |
| Execution.RunFaultFree | src/Service/AutoDownService.php:73-76 | when nothing throws, every due config is counted and every due SPU ends down |
| Execution.RunOnTakenDown | src/Service/AutoDownService.php:106-110 | over SPUs that are all down, no SPU changes and every config is logged as skipped, or as an error where processing threw |
| Execution.RunTwice | src/Service/AutoDownService.php:67-94 | when nothing throws in either run, a second run over the same configs changes no SPU and counts every config again |
| Execution.RunOutcomes | src/Service/AutoDownService.php:99-118 | with one config per SPU, each config's log action and its SPU's final flag are decided by the flag before the run and by whether its processing threw |
| Scheduling.ScheduleDraft | src/Service/AutoDownService.php:30-36 | the entity flushed carries the SPU and the new time; it is new exactly when the SPU has no config |
| Scheduling.ScheduleEffect | src/Service/AutoDownService.php:30-38 | configuring an existing SPU always succeeds, and the SPU then has exactly one config, with the new time. For an SPU without a config, one new active row is appended with the next id. An existing config keeps its id, creation time and active bit, so a canceled one stays canceled; the table keeps its size and ids. Other SPUs' configs stay; the constraints hold |
| Scheduling.CancelEffect | src/Service/AutoDownService.php:55-57 | canceling a stored config makes its row inactive with the flush as update time; every other row stays; size, ids and constraints are kept; the SPU is then no longer cancelable |
| Repositories.AutoDownTimeConfigRepository.FindActiveConfigs | src/Repository/AutoDownTimeConfigRepository.php:28-45 | exactly the active configs due at `now`, where `now` defaults to the current time; at most one per SPU |
| Repositories.AutoDownTimeConfigRepository.FindBySpu | src/Repository/AutoDownTimeConfigRepository.php:51-64 | the SPU's config whether active or not, and none exactly when the SPU has no config |
| Repositories.AutoDownTimeConfigRepository.CountActiveConfigs | src/Repository/AutoDownTimeConfigRepository.php:69-86 | the size of `findActiveConfigs(now)` for the same `now` |
| Repositories.AutoDownTimeConfigRepository.Save | src/Repository/AutoDownTimeConfigRepository.php:91-98 | a new config adds exactly one row; a managed one keeps the row count and the ids; a refused flush changes no row; logs and SPUs are untouched |
| Repositories.AutoDownTimeConfigRepository.Remove | src/Repository/AutoDownTimeConfigRepository.php:103-110 | a stored config removes exactly its own row, one fewer, and its logs go with it; a new entity changes nothing; an entity with no row is refused |
| Repositories.AutoDownTimeConfigRepository.CleanupOldCanceledConfigs | src/Repository/AutoDownTimeConfigRepository.php:115-132 | deletes exactly the inactive configs updated more than `daysOld` days ago (30 by default), with their logs; never an active config; returns how many it deleted |
| Repositories.AutoDownLogRepository.FindBySpuId | src/Repository/AutoDownLogRepository.php:28-42 | only that SPU's logs, newest first, at most `limit` of them (100 by default), and all of them when they fit; an SPU without logs gives nothing |
| Repositories.AutoDownLogRepository.FindByConfigId | src/Repository/AutoDownLogRepository.php:50-65 | only that config's logs, newest first, at most `limit` of them, and all of them when they fit |
| Repositories.AutoDownLogRepository.FindByAction | src/Repository/AutoDownLogRepository.php:73-87 | only the logs with that action, newest first, at most `limit` of them, and all of them when they fit |
| Repositories.AutoDownLogRepository.CountByActions | src/Repository/AutoDownLogRepository.php:94-120 | an entry exactly for each action that occurs, holding its number of logs, keyed by backing strings; the values sum to the number of logs; an empty table gives an empty map |
| Repositories.AutoDownLogRepository.Save | src/Repository/AutoDownLogRepository.php:125-132 | a new log becomes exactly one appended row with its id; a stored log changes nothing; configs and SPUs are untouched |
| Repositories.AutoDownLogRepository.Remove | src/Repository/AutoDownLogRepository.php:137-144 | a stored log removes exactly its own row, one fewer; a new entity changes nothing; an entity with no row is refused |
| Repositories.AutoDownLogRepository.CleanupOldLogs | src/Repository/AutoDownLogRepository.php:149-164 | deletes exactly the logs created more than `daysOld` days ago (90 by default) and returns that number |
| LogService.AutoDownLogService.CreateLog | src/Service/AutoDownLogService.php:72-89 | the log table gains exactly one row carrying the config's SPU id, the config, the action, and the description and context as given (null included). It has the next id and the flush time, and the returned entity is that row. Existing logs, configs and SPUs are unchanged, and for a stored config with an SPU the flush cannot fail |
| LogService.AutoDownLogService.LogScheduled | src/Service/AutoDownLogService.php:22-25 | `createLog` with SCHEDULED |
| LogService.AutoDownLogService.LogExecuted | src/Service/AutoDownLogService.php:32-35 | `createLog` with EXECUTED |
| LogService.AutoDownLogService.LogSkipped | src/Service/AutoDownLogService.php:42-45 | `createLog` with SKIPPED |
| LogService.AutoDownLogService.LogError | src/Service/AutoDownLogService.php:52-55 | `createLog` with ERROR |
| LogService.AutoDownLogService.LogCanceled | src/Service/AutoDownLogService.php:62-65 | `createLog` with CANCELED |
| AutoDownServiceModule.AutoDownService.ConfigureAutoTakeDownTime | src/Service/AutoDownService.php:28-43 | the config table becomes `Upsert` of the scheduling draft, which succeeds. The returned config is bound to the SPU, has the new time and refers to the stored row. Exactly one SCHEDULED log is appended for that row, with the formatted description. SPUs are untouched |
| AutoDownServiceModule.AutoDownService.CancelAutoTakeDown | src/Service/AutoDownService.php:48-62 | returns true exactly when the SPU has an active config. Otherwise it changes no config and writes no log. When true, the config is rewritten as canceled and exactly one CANCELED log is appended. SPUs are untouched |
| AutoDownServiceModule.AutoDownService.ProcessSingleConfig | src/Service/AutoDownService.php:99-118 | a config without an SPU throws `spuNotFound` and changes nothing; otherwise the SPUs and logs become `Process`'s result; a fault while loading or flushing the SPU changes nothing and is passed on |
| AutoDownServiceModule.AutoDownService.TryProcess | src/Service/AutoDownService.php:74-90 | one `try`/`catch` pass leaves exactly `Step`'s state and reports whether the counter is incremented |
| AutoDownServiceModule.AutoDownService.ExecuteAutoTakeDown | src/Service/AutoDownService.php:67-94 | the count, the SPU flags, the logs and the log counter are exactly those of `Run` over `findActiveConfigs(now)`, where `now` defaults to the current time; the config table is unchanged |
| AutoDownServiceModule.AutoDownService.CountActiveConfigs | src/Service/AutoDownService.php:123-126 | the number of configs `executeAutoTakeDown(now)` would visit |
| AutoDownServiceModule.AutoDownService.CleanupOldConfigs | src/Service/AutoDownService.php:131-134 | the retention sweep with `daysOld` 30 by default: exactly the old canceled configs and their logs go, never an active config |
| AutoDownServiceModule.StepDone | src/Service/AutoDownService.php:75-76 | when processing does not throw, the pass is its effect with the counter one higher |
| AutoDownServiceModule.StepFailed | src/Service/AutoDownService.php:77-90 | when processing throws, the pass is exactly the ERROR row the `catch` block's `logError` writes, and the counter stays |
| AutoDownServiceModule.DueSpusKnown | src/Entity/AutoDownTimeConfig.php:28-31 | by the config-to-SPU foreign key, every due config's SPU exists |

## Left out

- Doctrine's unit of work is reduced to "persist + flush" as one step. Not modelled:
  - `save`/`remove` without flush;
  - the identity map;
  - the entity manager being closed after a failed flush.

  The DQL is modelled by its result. Repositories return rows, and a service wraps a row in a
  fresh entity (`AutoDownTimeConfig.FromRecord`), standing in for the managed entity.
- Wall-clock time, time zones and Carbon calendar arithmetic are not modelled:
  - timestamps are integers and "d days" is `d * 86400`;
  - `format('Y-m-d H:i:s')` is rendered for UTC;
  - the current time and the flush time are parameters, and one run uses one clock throughout.

  Negative `daysOld` is allowed, as in the source.
- The PSR logger call in the executor's `catch` block is left out. It is diagnostics only; the
  audit log is the observable effect.
- Exceptions are modelled as follows:
  - a thrown `Throwable` is a `Fault` (message, file, line);
  - `faults`, an oracle parameter of `ExecuteAutoTakeDown`, says which configs' processing throws;
  - a fault is modelled as raised before any write, while the SPU is loaded or updated.

  A fault raised after the SPU's flush, or a failing log write inside the `catch` block, is not
  modelled.
- `AutoDownServiceModule.AutoDownService.ProcessSingleConfig`: requires a stored config, because
  the executor only passes configs from `findActiveConfigs`.
- `AutoDownServiceModule.AutoDownService.TryProcess`: this is the body of the `foreach`, split
  out as its own method.
- The order of rows with equal `createTime`, and the order of `GROUP BY` rows, are left open by
  SQL. Here the sort is stable and the rows follow the enum's declaration order.
- `ConfigTable.DueConfigs`: the due configs are taken in table order. The query in
  `findActiveConfigs` (AutoDownTimeConfigRepository.php:28-45) has no `ORDER BY`, so SQL leaves
  that order open. Several facts hold for every order the database might choose:
  - each log belongs to the config it was written for;
  - the count;
  - the SPU flags.

  The order of the executor's visits, and so which config's log gets which id
  (`Execution.RunLogEntries`), holds only for table order.
- `Repositories.AutoDownLogRepository.FindBySpuId`, `FindByConfigId` and `FindByAction` take
  `limit` as a `nat`, but the PHP accepts any `int`. A negative limit would reach
  `setMaxResults` and the SQL, where the outcome depends on the database. Every caller in the
  bundle passes the default or a positive value. `LogTable.Query` has the same narrowing.
- `LogAction.GetItems`: returns a `map`, which has no order. PHP's array keeps the cases'
  declaration order (AutoDownLogAction.php:47-55); the map keeps only the entries.
- `AutoDownServiceModule.AutoDownService.ConfigureAutoTakeDownTime`: requires an SPU that is
  stored in the catalogue. The PHP can be handed an SPU entity that was never stored; its flush
  then throws. That error path is not modelled.
- Timestamp stamping is simplified: `updateTime` is stamped on every flush of a managed config,
  even when nothing changed.
- Ids come from counters. Snowflake log ids are a counter too.
- Blameable, timestamp and IP traits are left out, except `createTime` and `updateTime`.
- JSON serialisation of `context` is not modelled. A context is a map of string keys to scalars.
- `AutoTakeDownSpuCommand` is not part of this model. It is console output around the
  executor.
- Also no part of this model:
  - the admin CRUD controllers, `AdminMenu`, the fixtures and the bundle/DI classes: UI and wiring;
  - the deletion of an SPU, and its cascade to configs: that belongs to the product subsystem.
- Concurrency and overlapping runs are not modelled: the source has no locking.
