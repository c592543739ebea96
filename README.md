# cron-pgsql in Dafny

A model of the PostgreSQL persistence layer of the `cron` scheduler (`pgsql.go`): the
configuration helpers that resolve the connection string and quote the schema-qualified table
names, and the connection's operations on its three tables — the job registry (`name` →
jsonb document), the append-only execution log (rows with a BIGSERIAL `id`), and the lock table
(a set of keys inserted once).

Layout:

- `common.dfy` — `Option` and the two error kinds (`EncodeError` from `json.Marshal`, `DbError` from the database).
- `ident.dfy` — `quoteIdent`, a reader that parses a quoted identifier back, and the `"schema"."table"` names.
- `settings.dfy` — the settings map (values tagged `Str`, `Int`, `Int64` or `Other`), `normalizePGURL`,
  decimal port text, `parseDSN` up to its resolved fields, and the name defaults of `Connection`.
- `documents.dfy` — the job and log documents: what `json.Marshal`/`Unmarshal` keep, a per-document
  "decodes" flag, and the `jsonb_set(data, '{disabled}', v, true)` patch.
- `tables.dfy` — what each SQL statement computes, as functions: the map `List` returns, the job's
  log rows, the `ORDER BY id DESC OFFSET LIMIT` page, the rows `Remove` keeps, the `ON CONFLICT DO
  NOTHING` insert; and the lemmas about them.
- `connection.dfy` — class `PgsqlConnection` holding the three tables as a `map`, a `seq` (plus the
  id sequence's next value) and a `set`; one method per connection method, with `modifies this`
  where the statement writes. Whether each external call succeeds (`json.Marshal`, `Exec`,
  `Begin`/`Commit`, `Query`, `Scan`) is a parameter of the method.
- `session.dfy` — two client sessions (add/disable/list/remove, append/history/remove) proved from
  the method contracts and the lemmas about the table functions.

`History` skips a log row whose document fails to unmarshal (pgsql.go:227-229) instead of failing
the whole call, so unlike a strict audit log it tolerates corrupt rows; only a failed query or a
failed `Scan` aborts it. Consequently `total` counts every row of the job while the page may hold
fewer than `limit` entries.

A job document's `disabled` field is modelled as absent, a boolean, or a non-null value of another
JSON type. The last makes `json.Unmarshal` into `Job` fail, so `List` skips that row; a JSON `null`
leaves the bool field untouched without an error, so it reads as absent; `Enable`/`Disable` overwrite
the field with a boolean, which makes the row decodable again when the rest of it is.

## Model

| member | source | states |
|---|---|---|
| `Ident.QuoteIdent` | pgsql.go:389-391 | the result opens and closes with `"` and its inside is the name with every `"` doubled |
| `Ident.EscapeLength` | pgsql.go:390 | doubling the quotes lengthens the name by exactly its number of `"` |
| `Ident.QuoteIdentLength` | pgsql.go:389-391 | the quoted identifier has length `|name| + 2 + (number of " in name)` |
| `Ident.ReadBodyEscape` | pgsql.go:390 | reading back the escaped text undoubles every quote and stops exactly at the closing quote |
| `Ident.ReadQuotedIdent` | pgsql.go:389-391 | a quoted identifier followed by any text not starting with `"` reads back as that identifier and that text |
| `Ident.UnquoteQuoteIdent` | pgsql.go:389-391 | unquoting a quoted identifier returns the identifier (round trip) |
| `Ident.QuoteIdentInjective` | pgsql.go:389-391 | two names quote to the same text only if they are equal |
| `Ident.QualifiedName` | pgsql.go:306-316 | `"schema"."table"` is as long as the two quoted parts plus the dot and is enclosed in quotes |
| `Ident.ParseQualifiedName` | pgsql.go:306-316 | schema and table are read back from the qualified name whatever quotes or dots they contain |
| `Ident.QualifiedNameInjective` | pgsql.go:306-316 | two qualified names are equal only when schemas and tables are (no identifier injection) |
| `Settings.TextOr` | pgsql.go:42-44 | a present non-empty string setting overrides the fallback; anything else leaves the fallback |
| `Settings.NormalizeUrl` | pgsql.go:379-387 | `pgsql://` or `postgresql://` is replaced by `postgres://` with the rest unchanged; any other string is returned as is |
| `Settings.NormalizeUrlIdempotent` | pgsql.go:379-387 | normalising twice equals normalising once |
| `Settings.NormalizeUrlResultIsCanonical` | pgsql.go:379-387 | the result never starts with a scheme the function rewrites |
| `Settings.Decimal` | pgsql.go:334-339 | the port text of a number is non-empty, all decimal digits, with no leading zero for a positive number |
| `Settings.DecimalRoundTrip` | pgsql.go:334-339 | the digits read back as the number they were written from |
| `Settings.DecimalInjective` | pgsql.go:334-339 | distinct port numbers give distinct port texts |
| `Settings.ResolvePortCases` | pgsql.go:330-339 | a non-empty string port is used as is, a positive int or int64 port is written in decimal, anything else gives 5432 |
| `Settings.ResolvePortNumeric` | pgsql.go:330-339 | the resolved port is never empty and a numeric port's text has the number's value |
| `Settings.ParseDsn` | pgsql.go:318-324 | a non-empty `dsn` string wins verbatim; otherwise a non-empty `url` string is returned normalised; otherwise fields are assembled |
| `Settings.ParseDsnFields` | pgsql.go:326-365 | host, port, user (`user` over `username`), password (any string, even empty), database (`dbname` over `database`) and sslmode each take their setting or their default |
| `Settings.ParseDsnDefaults` | pgsql.go:326-365 | with no settings the fields are 127.0.0.1, 5432, postgres, empty password, postgres, disable |
| `Settings.ParseDsnFieldsNonEmpty` | pgsql.go:326-365 | every assembled field but the password is non-empty |
| `Settings.ResolveConfig` | pgsql.go:37-68 | schema and the three table names are their non-empty string settings or `public`, `cron_jobs`, `cron_logs`, `cron_locks`, and never empty |
| `Settings.JobsTableSql` | pgsql.go:306-308 | the jobs table name parses back to the configured schema and jobs table |
| `Settings.LogsTableSql` | pgsql.go:310-312 | the logs table name parses back to the configured schema and logs table |
| `Settings.LocksTableSql` | pgsql.go:314-316 | the locks table name parses back to the configured schema and locks table |
| `Settings.TableSqlDistinct` | pgsql.go:306-316 | distinct configured table names give three distinct qualified names |
| `Documents.EncodeJob` | pgsql.go:91-92 | a marshalled job decodes, keeps the name and writes the `disabled` field |
| `Documents.DecodeJob` | pgsql.go:170-173 | unmarshalling succeeds exactly when the body decodes and `disabled` is absent or boolean, keeps the name, and reads an absent `disabled` as false |
| `Documents.EncodeLog` | pgsql.go:181 | a marshalled log decodes and carries the log's job |
| `Documents.DecodeLog` | pgsql.go:226-229 | unmarshalling a log succeeds exactly on decodable documents and keeps the job |
| `Documents.DecodeEncodeJob` | pgsql.go:90-105 | a job read back after being marshalled is the job that was written |
| `Documents.DecodeEncodeLog` | pgsql.go:180-190 | a log read back after being marshalled is the log that was written |
| `Documents.SetDisabled` | pgsql.go:111 | the patch sets `disabled`, creating it if absent, and keeps the name and every other field |
| `Documents.DecodeSetDisabled` | pgsql.go:108-128 | after the patch the document decodes iff its body does, so a row refused only for a non-boolean `disabled` becomes decodable; on a decodable document the patch changes only the job's Disabled flag |
| `Documents.DisableThenEnable` | pgsql.go:108-128 | Disable then Enable equals Enable alone, and restores a document whose flag was false exactly |
| `Tables.Listed` | pgsql.go:167-175 | a row is kept iff its document decodes (body decodes and `disabled` absent or boolean), and then as the decoded job with Name set to the row key |
| `Tables.ListView` | pgsql.go:154-178 | List's keys are exactly the rows that decode, and each returned job is that row's decoded document with Name set to its key |
| `Tables.ListAfterUpsert` | pgsql.go:90-105 | after Add, List maps the name to the job (named by it) and leaves every other entry unchanged |
| `Tables.ListAfterTwoUpserts` | pgsql.go:90-105 | two Adds under one name leave only the second document visible |
| `Tables.ListAfterDelete` | pgsql.go:137-142 | after Remove's job delete, List no longer returns the name and returns every other job as before |
| `Tables.JobRows` | pgsql.go:195 | every selected row belongs to the job, and there are no more of them than rows |
| `Tables.OtherRows` | pgsql.go:144-149 | no kept row belongs to the deleted job, and there are no more of them than rows |
| `Tables.JobRowsMembers` | pgsql.go:195 | a row is selected iff it is in the table and belongs to the job |
| `Tables.OtherRowsMembers` | pgsql.go:144-149 | a row survives the delete iff it is in the table and belongs to another job |
| `Tables.JobRowsAscending` | pgsql.go:195 | selecting one job's rows keeps ids ascending |
| `Tables.OtherRowsAscending` | pgsql.go:144-149 | deleting one job's rows keeps ids ascending |
| `Tables.NoJobRows` | pgsql.go:195 | rows none of which belongs to the job count zero for it |
| `Tables.OtherRowsLeaveNone` | pgsql.go:144-149 | no row of the removed job survives the delete |
| `Tables.OtherRowsKeepOthers` | pgsql.go:144-149 | every other job keeps exactly its rows, in order |
| `Tables.NewestFirst` | pgsql.go:212 | the ordered rows (or logs) are the input read backwards |
| `Tables.NewestFirstDescending` | pgsql.go:212 | rows whose ids ascend, read newest first, have descending ids |
| `Tables.Window` | pgsql.go:212 | OFFSET/LIMIT returns `min(limit, n - offset)` elements (0 past the end), the i-th being element `offset + i` |
| `Tables.DecodeLogs` | pgsql.go:221-231 | the decoded page is never longer than the rows; when every row decodes it is as long and its i-th log is the decoding of row i |
| `Tables.DecodeLogsMembers` | pgsql.go:221-231 | every row that decodes contributes its log, and every log in the result is the decoding of some row |
| `Tables.WindowNewestFirst` | pgsql.go:212 | a page of rows taken newest first has descending ids and at most `limit` entries |
| `Tables.WindowNewestFirstAt` | pgsql.go:212 | the i-th entry of a newest-first page is the row `offset + i` places from the end |
| `Tables.HistoryPageOrder` | pgsql.go:204-212 | the page is in descending id order and holds at most the clamped limit (all rows when limit <= 0) |
| `Tables.HistoryPageAt` | pgsql.go:204-212 | the page's i-th row is the job's row `offset + i` places from the newest, and belongs to the job |
| `Tables.HistoryPageLogs` | pgsql.go:204-231 | when all the job's rows decode, the page has one log per row and its i-th log is the decoding of the job's row `offset + i` places from the newest |
| `Tables.HistoryOffsetPastEnd` | pgsql.go:192-234 | an offset at or past the total gives an empty page with the true total |
| `Tables.HistoryNegativeOffset` | pgsql.go:204-206 | a negative offset behaves as 0 |
| `Tables.HistoryNoLimit` | pgsql.go:207-209 | a limit of 0 or less returns every row from the offset on |
| `Tables.HistoryAfterAppend` | pgsql.go:180-190 | an appended row of the job joins the end of its rows and the head of its unpaged history |
| `Tables.HistoryAfterOtherAppend` | pgsql.go:180-190 | appending a row of another job leaves the job's rows unchanged |
| `Tables.AppendedRows` | pgsql.go:185-188 | a run of appends adds one row per log with consecutive ids |
| `Tables.HistoryOfAppends` | pgsql.go:180-234 | after any run of AppendLog calls for a job without logs, History(job, 0, 0) returns total = number appended and the logs newest first |
| `Tables.DecodeLogsCons` | pgsql.go:221-231 | a decodable row in front of a page puts its log in front of the decoded page |
| `Tables.HistoryAfterRemove` | pgsql.go:130-152 | after Remove the job's history is `(0, [])` and every other job's history is unchanged |
| `Tables.LockStep` | pgsql.go:240-255 | the insert reports success iff the key was absent, and afterwards the key is held |
| `Tables.LockRun` | pgsql.go:236-257 | a run of Lock calls answers once per call, and a call succeeds iff its key was neither held before the run nor taken by an earlier call of the run |
| `Tables.LockRunHeld` | pgsql.go:236-257 | once a key is held every later attempt on it returns false |
| `Tables.OneWinner` | pgsql.go:236-257 | N successive attempts on one unused key: exactly one (the first) returns true |
| `Connection.PgsqlConnection.constructor` | pgsql.go:37-68 | the configuration is resolved from the settings and the tables start as the database holds them |
| `Connection.PgsqlConnection.Add` | pgsql.go:90-106 | a marshal failure or failed statement changes nothing and returns the error; otherwise the row for `name` becomes the job named `name` and nothing else changes |
| `Connection.PgsqlConnection.SetFlag` | pgsql.go:108-128 | the existing row's `disabled` is set; a missing name changes nothing without error; other rows and tables unchanged |
| `Connection.PgsqlConnection.Enable` | pgsql.go:108-117 | an existing job's `disabled` becomes false, all else unchanged; an unknown name is not an error |
| `Connection.PgsqlConnection.Disable` | pgsql.go:119-128 | an existing job's `disabled` becomes true, all else unchanged; an unknown name is not an error |
| `Connection.PgsqlConnection.Remove` | pgsql.go:130-152 | on commit the job row and all its logs are gone and everything else stays; a failure at any step changes nothing |
| `Connection.PgsqlConnection.List` | pgsql.go:154-178 | returns exactly the decodable rows keyed by row name with Name overwritten; a failed query or Scan returns an empty map and the error |
| `Connection.PgsqlConnection.AppendLog` | pgsql.go:180-190 | on success the log is appended under an id above every existing id and nothing else changes; on failure nothing changes |
| `Connection.PgsqlConnection.ScanRows` | pgsql.go:220-231 | the loop decodes every row, skipping those that do not unmarshal, and fails only on a Scan error |
| `Connection.PgsqlConnection.History` | pgsql.go:192-234 | on success returns the job's total and the decoded clamped page newest first; a failed count, query or Scan returns `(0, [])` and the error |
| `Connection.PgsqlConnection.Lock` | pgsql.go:236-257 | returns true and inserts the key iff it was absent; a held key gives false with no error and no change; `ttl` is ignored |
| `Session.RegistrySession` | pgsql.go:90-178 | Add then Disable then List shows the job disabled; after Remove List is empty |
| `Session.LogSession` | pgsql.go:130-234 | two AppendLogs then History gives `(2, [newest, oldest])`; after Remove History gives `(0, [])` |

## Left out

- Driver registration in `init` (pgsql.go:19-22): a process-wide side effect with no behaviour to state.
- `Open`, `Close`, the pool and `Ping` (pgsql.go:70-88): network I/O; the tables exist from construction.
- `ensureSchema` (pgsql.go:259-304): DDL text whose only property is `IF NOT EXISTS`.
- The SQL text, `fmt.Sprintf` and `context.Background()`: each statement is modelled by its effect.
- `json.Marshal`/`Unmarshal`: a foreign library; documents keep only `name`/`job` and `disabled` and an opaque remainder with a "decodes" flag.
- `url.URL.String()` and `query.Encode()` (pgsql.go:367-376): foreign URL encoding; `parseDSN` is modelled up to the resolved fields.
- The `now()` timestamps `updated_at`, `created_at`, `expired_at`: wall-clock values nothing reads.
- Concurrency: calls are sequential; that one concurrent `Lock` caller wins rests on PostgreSQL's unique constraint and is not modelled.
- `jsonb_set` on a stored value that is not a JSON object (PostgreSQL raises an error there): stored job documents are objects in the model.
- Settings: Go `int` and `int64` are mathematical integers; the configured values fit their ranges, so no wrap-around is modelled.
- `Connection.PgsqlConnection.List`: does not model a `rows.Err()` failure in the middle of the stream (pgsql.go:177), which returns the partly built map with the error.
- `Connection.PgsqlConnection.History`: does not model a `rows.Err()` failure in the middle of the stream (pgsql.go:233), which returns the total and the partly built page with the error; nor the run-time panic of `make([]cron.Log, 0, limit)` (pgsql.go:220) when the job has rows and a positive `limit` is too large to allocate as a slice capacity — the model returns the page for every limit.
- Every failed database call leaves the tables unchanged; a BIGSERIAL value consumed by a failed insert is not modelled.
