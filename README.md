# idOS metrics handler — a Dafny model

This project models the metric handler of the idOS metrics service
(`cli/Handler/Metrics.php`). The handler does two things:

- **Event recorder** (`handleNewMetric`). It looks at the event's `endpoint`:
  - A `profile:source` event becomes one `source_metrics` row with columns
    `credential_id`, `provider`, `sso`, `action` and `created_at`.
  - A `profile:gate` event becomes one `gate_metrics` row with columns
    `credential_id`, `name`, `pass`, `action` and `created_at`.
  - Any other string endpoint is rejected with `false`. (Endpoints are
    strings in this model; see "## Left out".)
- **Hourly rollup** (`handleHourlyMetrics`). One `INSERT … SELECT … GROUP BY`
  statement per category does the following:
  - keeps the raw rows created strictly before `now - 3600`;
  - truncates their timestamps to the hour;
  - groups them by the four non-time columns the recorder inserts plus that
    hour;
  - appends one row per group, carrying `COUNT(*)`, to the category's
    `_hourly` table.

Files:

- `rollup.dfy` — module `Aggregation`. The rollup as pure functions:
  - `Hour` is `DATE_TRUNC('hour', …)` on epoch seconds.
  - `Eligible` is the `WHERE` clause.
  - `Key` is the group key, a `Group(attrs, hour)`.
  - `GroupCount` is `GROUP BY … COUNT(*)`. It is a fold that bumps a group's
    count or opens a new group.
  - `Rollup` is the whole query.

  The lemmas tie `Rollup` to an independent reference count
  (`CountMatching`, a direct count over the raw table). They also state the
  one-row-per-group, total-count, bucketing and cutoff properties.
- `events.dfy` — module `Events`. The event datatype, the PHP strict
  `=== true` rules for `sso` and `pass`, and `Route`, the endpoint switch that
  projects an event into the row to insert.
- `store.dfy` — module `Store`. Class `Database` holds the four tables
  (`source_metrics`, `gate_metrics`, `source_metrics_hourly`,
  `gate_metrics_hourly`) as `seq` fields. Its two methods only append to them.
- `scenarios.dfy` — module `Scenarios`. Worked examples on concrete rows and
  events.

Timestamps and `now` are non-negative integer epoch seconds. `now` is a
parameter: it is the value the source reads with `time()`.

The handler's behaviour in brief:

- The cutoff is strict: a row is rolled up when `created_at < now - 3600`.
- The cutoff is not aligned to an hour, so one hour's rows can be split
  across runs (`Scenarios.HourSplitAcrossRuns`).
- Consumed raw rows are never deleted.
- Hourly rows are appended unconditionally, with no upsert and no
  transaction.
- A second run appends the same groups again (`Store.RerunAppendsAgain`).
- Exact duplicate raw rows, such as a re-delivered event, each count
  (`Scenarios.DuplicatesCounted`).
- The group key is the four non-time columns the recorder inserts, plus the
  hour:
  - for sources: `credential_id`, `sso`, `provider`, `action`, hour;
  - for gates: `credential_id`, `name`, `pass`, `action`, hour.

## Model

| member | source | states |
|---|---|---|
| Events.SsoFlag | cli/Handler/Metrics.php:48 | `sso` is true exactly when the `tags.sso` value is present and is the JSON boolean `true`; a missing tag gives false |
| Events.PassFlag | cli/Handler/Metrics.php:66 | `pass` is true exactly when `gate.pass` is the JSON boolean `true`, false for every other value |
| Events.IsSet | cli/Handler/Metrics.php:48 | PHP `isset`: an absent value and null are not set; a present boolean is set |
| Events.StrictlyTrue | cli/Handler/Metrics.php:48 | PHP `=== true` holds of exactly the JSON boolean `true` |
| Events.WellFormed | cli/Handler/Metrics.php:37-40 | the recorder's precondition: a `profile:source` event carries a `source` object and a `profile:gate` event a `gate` object; an event for any other endpoint is acceptable whatever it carries |
| Events.Route | cli/Handler/Metrics.php:34-76 | an unknown endpoint yields no insert; `profile:source` yields a `source_metrics` row and `profile:gate` a `gate_metrics` row; the row's credential id, provider/name, action and boolean follow the event's fields, and `created_at` is the event's `created` |
| Store.Database.HandleNewMetric | cli/Handler/Metrics.php:34-76 | returns true exactly for the two known endpoints; appends the routed row to that category's raw table and changes no other table; on false nothing changes |
| Store.Database.HandleHourlyMetrics | cli/Handler/Metrics.php:81-107 | appends `Rollup(raw table, now)` to the endpoint's hourly table; raw tables, existing hourly rows and the other category's tables are unchanged; an unknown endpoint changes nothing |
| Store.RerunAppendsAgain | cli/Handler/Metrics.php:81-93 | two runs with no new events append the same rollup twice and leave the raw table as it was |
| Aggregation.Hour | cli/Handler/Metrics.php:88 | the truncated time is a multiple of 3600 and lies within the hour below t: `b <= t < b + 3600` |
| Aggregation.HourUnique | cli/Handler/Metrics.php:88 | the hour boundary b with `b <= t < b + 3600` is exactly `Hour(t)` |
| Aggregation.SameHourIff | cli/Handler/Metrics.php:91 | two timestamps share a bucket if and only if they have the same hour index `t / 3600` |
| Aggregation.HourBoundaries | cli/Handler/Metrics.php:91 | 3599 and 3600 fall in different buckets; 3600 and 7199 fall in the same bucket |
| Aggregation.IsEligible | cli/Handler/Metrics.php:90 | a row passing the WHERE clause lies in an hour that ended before `now`; a row failing it was created at most one hour before `now` |
| Aggregation.Eligible | cli/Handler/Metrics.php:90 | a row survives the WHERE clause if and only if it is in the table and created strictly before `now - 3600`, and it is kept exactly as many times as it occurs in the table |
| Aggregation.EligibleAppendLate | cli/Handler/Metrics.php:102 | appending a row at or after the cutoff leaves the eligible rows unchanged |
| Aggregation.Key | cli/Handler/Metrics.php:88-91 | the group key keeps every non-time column and puts the row in its hour: the key's hour is on an hour boundary and at most 3599 s before the row |
| Aggregation.GroupCount | cli/Handler/Metrics.php:88-91 | GROUP BY … COUNT(*) emits each group once, every count is at least 1, and the counts sum to the number of rows grouped |
| Aggregation.GroupCountOf | cli/Handler/Metrics.php:88-91 | the count recorded for a group equals the number of occurrences of that key among the rows grouped |
| Aggregation.GroupCountGroups | cli/Handler/Metrics.php:91 | the groups emitted are exactly the keys that occur |
| Aggregation.RollupCounts | cli/Handler/Metrics.php:87-91 | each hourly row's count equals the number of raw rows created before the cutoff whose columns and hour match that row, and is at least 1 |
| Aggregation.Rollup | cli/Handler/Metrics.php:87-91 | the whole INSERT … SELECT appends at most one row per group, each with a positive count, the counts summing to the number of rows the WHERE clause keeps (per-group counts: `RollupCounts`; groups: `RollupGroups`) |
| Aggregation.RollupTotal | cli/Handler/Metrics.php:99-103 | the rollup's counts sum to the number of positions of the raw table holding a row created before the cutoff, duplicates included |
| Aggregation.EligibleSize | cli/Handler/Metrics.php:102 | the WHERE result has as many rows as the table has positions passing the cutoff |
| Aggregation.RollupGroups | cli/Handler/Metrics.php:87-91 | every eligible raw row's group appears in the rollup, and every rollup row's group comes from some eligible raw row |
| Aggregation.RollupBuckets | cli/Handler/Metrics.php:100-103 | a rollup row starts on an hour boundary, carries the columns of the raw rows it counts, and each of them lies in `[createdAt, createdAt + 3600)` |
| Aggregation.RollupOnHour | cli/Handler/Metrics.php:88 | every appended hourly row's `created_at` is a multiple of 3600 |
| Aggregation.CountMatchingAppend | cli/Handler/Metrics.php:88-91 | the number of eligible raw rows of a group in a table is the sum over any split of the table into two consecutive stretches |
| Aggregation.CountMatchingPerm | cli/Handler/Metrics.php:88-91 | two raw tables holding the same rows as a multiset give every group the same reference count |
| Aggregation.RollupPerm | cli/Handler/Metrics.php:87-91 | two raw tables holding the same rows in any order give every group the same count in the rollup |
| Aggregation.RollupIgnoresLate | cli/Handler/Metrics.php:90 | a raw row at or after the cutoff does not change the rollup, whether it comes first or last |
| Scenarios.ThreeRowsTwoGroups | cli/Handler/Metrics.php:87-91 | three raw rows at t = 100, 200 (credential 1) and 150 (credential 2), rolled up at now = 4000, give two hourly rows at hour 0 with counts 2 and 1 |
| Scenarios.HourSplitAcrossRuns | cli/Handler/Metrics.php:90-91 | rows at t = 100 and t = 3000 rolled up at now = 4000 give one hour-0 row with count 1: the later row of the same hour is left for a later run |
| Scenarios.DuplicatesCounted | cli/Handler/Metrics.php:87-91 | two identical raw rows at t = 100 give one hour-0 row with count 2 |
| Scenarios.AtCutoffNothing | cli/Handler/Metrics.php:90 | the same rows rolled up at now = 3700 (cutoff 100) give no hourly row, because none is strictly before the cutoff |
| Scenarios.BogusEndpointRejected | cli/Handler/Metrics.php:72-75 | an event with endpoint `bogus` yields no insert |
| Scenarios.SsoTagStrict | cli/Handler/Metrics.php:48 | the string "true", the integer 1, null and a missing tag all give `sso = false`; only the boolean true gives true |

## Left out

- The Gearman worker loop (`cli/Command/Daemon.php`) is not modelled. This covers server registration, the non-blocking work/wait/sleep retry, JSON decoding and the `ok`/`invalid` acknowledgements. All of it is network I/O.
- The daily rollup (`handleDailyMetrics`, cli/Handler/Metrics.php:112-114) is not modelled. It calls `handleIntervalMetrics`, which the class does not define, so it has no behaviour to model. The endpoint loop of `cli/Command/Daily.php` dispatches into it and is left out too.
- The CLI command `cli/Command/Hourly.php` is not modelled. It only builds the handler, and it calls `handleHourlyMetrics()` without the endpoint argument the method declares. The model takes the endpoint explicitly.
- Configuration, connection setup and logging (`cli/Command/AbstractCommand.php`, `config/settings.php`, `cli/Utils/Logger.php`) are not modelled. They contain no logic.
- Date formatting is not modelled: `date('Y-m-d H:i:s', …)`, its time-zone dependence, and the SQL comparison of a timestamp column against a formatted string. Times are epoch seconds, `DATE_TRUNC('hour', t)` is `t - t % 3600`, and the cutoff compares integers.
- Store.Database.HandleNewMetric: the result of the database insert is taken to be true. Storage failures and exceptions are not modelled.
- Store.Database.HandleHourlyMetrics: the `unprepared` statement (cli/Handler/Metrics.php:86, 98) is taken to succeed. A failing statement would throw instead of appending; storage failures are not modelled.
- PHP's loose array access is not modelled. In PHP a missing key gives a notice and a null value. For `credential`, `source`, `gate` and `action` that null reaches the inserted column. A missing `created` is different: `date('Y-m-d H:i:s', null)` (cli/Handler/Metrics.php:50, 68) throws a TypeError under `strict_types=1` on PHP 7, and on PHP 8 gives the current time, so `created_at` becomes the insertion time. Here the event is a typed datatype with all these fields, and `Events.WellFormed` requires the nested `source` or `gate` object that the endpoint reads. Only the optional `tags.sso` value is modelled as possibly absent.
- Events.Route: the endpoint is a string. PHP's `switch` compares loosely, so a JSON `true` endpoint would also be sent to the `profile:source` branch (and on PHP 7 so would the integer 0); `handleHourlyMetrics($endpoint)` behaves the same way. Non-string endpoints are not modelled.
- The order of the rows that `GROUP BY` emits is unspecified in SQL. `Aggregation.GroupCount` lists groups in order of first occurrence. The properties proved are stated per group and per count, not by position.
- Concurrency between the recorder and the rollup is not modelled: each operation is one atomic step here.
