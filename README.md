# prometheus-postgresql-adapter: the PostgreSQL client, modelled in Dafny

This project models the core of `pkg/postgresql/client.go` of the Prometheus
remote-storage adapter for PostgreSQL and pg_prometheus, and proves properties
of that model. The core translates between Prometheus samples and queries and
the adapter's SQL schema:

- **Escaping and anchoring** (`escaping.dfy`). `escapeValue` doubles single
  quotes. `anchorValue` makes a regular expression fully anchored.
- **Labels and series identity** (`labels.dfy`, `text.dfy`).
  - `createOrderedKeys` sorts a label map's names.
  - `sampleLabels.key` builds the identity key of a series, with byte 0xFF as
    the separator.
  - `sampleLabels.len` counts the labels.
  - `sampleLabels.Scan` decodes the JSON labels column.
  - `metricString` renders a metric as `name{k="v",...}` for the write path.
  - Go's `sort.Strings` and `strings.Join` are modelled over Go's byte-wise
    string order.
- **Time conversions** (`timestamps.dfy`).
  - `toTimestamp` splits milliseconds with Go's truncating division.
  - The write path turns a sample's time back into milliseconds through
    `UnixNano`, with its `int64` wrap-around written out. The read path's
    conversion is modelled on unbounded integers.
- **Query compiler** (`query.dfy`). `buildQuery`/`buildCommand` turn a
  remote-read query into one SQL statement:
  - one fragment per matcher, in order;
  - non-empty label equalities gathered into a single `labels @> '<json>'`
    test;
  - two time bounds;
  - an error for an unknown matcher type.
- **Read path** (`reader.dfy`). `Client.Read` runs every query and scans every
  row. It groups the rows into one time series per identity key: a new key
  opens a series, and each row appends its sample to its own series. Any
  query, scan or iteration error ends the read with that error.
- **Write path** (`writer.dfy`). `Client.Write` runs one transaction:
  - choose the COPY target table;
  - send one COPY line per sample, then a flush;
  - when the copy went to `<table>_tmp`, fold that table into the labels and
    values tables;
  - close the COPY statement and commit.

  Any error returns at once, and the deferred rollback runs.

The database, the JSON encoder and decoder, `%q` quoting, `%v` number
formatting and RFC 3339 time formatting are all parameters of the model.
Their behaviour is not modelled:

- Reads: the database is a function from command text to rows.
- Writes: the database is an object that logs every call and answers each
  one through a response function.

A `float64` sample value is carried as its 64-bit pattern and never computed
with.

## Model

| member | source | states |
|---|---|---|
| Escaping.EscapeValue | pkg/postgresql/client.go:562-564 | Every `'` is doubled and nothing else changes: the length grows by the number of quotes, the quote count doubles, the non-quote characters are the same in the same order, and unescaping gives the input back |
| Escaping.EscapeEmptyIff | pkg/postgresql/client.go:562-564 | The escaped value is empty exactly when the input is empty |
| Escaping.EscapeUnique | pkg/postgresql/client.go:562-564 | Every well-escaped text is the escape of its own unescaping, so escaping is a bijection onto well-escaped texts |
| Escaping.EscapeAppend | pkg/postgresql/client.go:562-564 | Escaping distributes over concatenation |
| Escaping.EscapeEnds | pkg/postgresql/client.go:562-564 | Escaping keeps the first and the last character |
| Escaping.AnchorValue | pkg/postgresql/client.go:568-584 | An empty pattern stays empty; any other result starts with `^` and ends with `$` |
| Escaping.AnchorAddsMissingAnchors | pkg/postgresql/client.go:568-584 | A non-empty pattern gets exactly its missing `^` in front and its missing `$` at the end. It comes back unchanged exactly when it already has both |
| Escaping.AnchorIdempotent | pkg/postgresql/client.go:568-584 | Anchoring twice is anchoring once |
| Escaping.AnchorEscapeCommute | pkg/postgresql/client.go:511-513 | Anchoring the escaped value (as `buildQuery` does) equals escaping the anchored value, and the result is still well escaped |
| Timestamps.Quot | pkg/postgresql/client.go:487-488 | Go's integer division truncates toward zero: the remainder is smaller than the divisor and has the dividend's sign |
| Timestamps.SplitMillisExact | pkg/postgresql/client.go:486-490 | The seconds and nanoseconds `toTimestamp` passes to `time.Unix` add back up to the milliseconds. The nanosecond part is below one second in size and has the sign of the input. Nothing overflows for an `int64` input |
| Timestamps.Unix | pkg/postgresql/client.go:489 | `time.Unix` gives a normalised instant with the same nanosecond count |
| Timestamps.ToTimestamp | pkg/postgresql/client.go:486-490 | The instant is normalised |
| Timestamps.ToTimestampExact | pkg/postgresql/client.go:486-490 | The instant is exactly `ms` milliseconds after the epoch, for negative `ms` too |
| Timestamps.MillisRoundTrip | pkg/postgresql/client.go:442 | `UnixNano() / 1000000` of a `toTimestamp` instant gives the milliseconds back |
| Timestamps.Wrap64 | pkg/postgresql/client.go:238 | `int64` wrap-around: the result is in range, congruent to the input modulo 2^64, and equal to the input when that is in range |
| Timestamps.WriteMillisExact | pkg/postgresql/client.go:238 | On the write path, `Timestamp.UnixNano() / 1000000` gives the sample's timestamp back whenever the nanosecond count fits in `int64` |
| Text.SortStringsCorrect | pkg/postgresql/client.go:325 | `sort.Strings` returns a sorted permutation of its input |
| Text.SortedUnique | pkg/postgresql/client.go:199 | Two sorted permutations of the same strings are equal, so a sorted result does not depend on the input order |
| Text.SortStringsPermutationInvariant | pkg/postgresql/client.go:186-199 | Sorting any permutation of the same strings gives the same result |
| Text.SortedSet | pkg/postgresql/client.go:320-327 | The canonical order of a set of names is strictly ascending and holds each element exactly once |
| Text.JoinInjective | pkg/postgresql/client.go:376 | Joining parts free of the separator is injective |
| Labels.CreateOrderedKeys | pkg/postgresql/client.go:320-327 | The names are a sorted permutation of the map's keys, and they are the set's canonical order |
| Labels.OrderedKeysExactlyOnce | pkg/postgresql/client.go:320-327 | A sorted permutation of the map's keys holds every key exactly once, in strictly ascending order |
| Labels.Len | pkg/postgresql/client.go:379-382 | For scanned labels the length is the number of labels in the map |
| Labels.IdentityKey | pkg/postgresql/client.go:366-377 | With no labels the key is exactly `extra + "\xff"` |
| Labels.Key | pkg/postgresql/client.go:366-377 | The append loop and join build the identity key of the label set and name |
| Labels.KeyDependsOnlyOnContents | pkg/postgresql/client.go:366-377 | Scanned label sets with equal maps give equal keys |
| Labels.KeyAsFields | pkg/postgresql/client.go:366-377 | The key is `extra`, an empty field, then each name and its value, in name order, joined with the separator |
| Labels.KeyInjective | pkg/postgresql/client.go:366-377 | When names and values are free of byte 0xFF, equal keys mean the same name and the same label map |
| Labels.KeyIdentifiesSeries | pkg/postgresql/client.go:366-377 | When names and values are free of byte 0xFF, two keys are equal if and only if name and label map are |
| Labels.Scan | pkg/postgresql/client.go:337-360 | nil leaves the receiver unchanged. A byte payload decodes into a canonical label set with that JSON, the decoded map and its sorted names, or returns the decoder's error. Any other type is an error. On every error the receiver is unchanged |
| Labels.MetricString | pkg/postgresql/client.go:179-202 | With no labels besides the name, the text is the name, or `{}` if there is none. Otherwise it is the name (empty if absent) followed by the sorted `k="v"` strings, comma-joined in braces. This holds whatever order the map is visited in |
| Labels.OtherLabelCount | pkg/postgresql/client.go:180-184 | `numLabels` is the number of labels other than the name |
| Labels.VisitOrderIrrelevant | pkg/postgresql/client.go:186-199 | Any visiting order of the labels gives the same sorted strings |
| Labels.MetricTextShape | pkg/postgresql/client.go:185-199 | The braces hold sorted strings, one per label other than the name. Every such label appears as `k=quote(v)`, and nothing else appears, so `__name__` never does |
| Labels.EveryLabelFormatted | pkg/postgresql/client.go:186-190 | Every label other than the name is formatted into the list |
| Labels.OnlyLabelsFormatted | pkg/postgresql/client.go:186-190 | Every string in the list formats a label other than the name |
| QueryCompiler.Translate | pkg/postgresql/client.go:500-537 | A matcher fails exactly when its type is unknown |
| QueryCompiler.TranslateName | pkg/postgresql/client.go:501-516 | The metric-name branch fails exactly on an unknown type |
| QueryCompiler.TranslateLabel | pkg/postgresql/client.go:518-537 | The label branch fails exactly on an unknown type |
| QueryCompiler.Classify | pkg/postgresql/client.go:496-537 | Fails exactly on an unknown type. It defers to the equality map exactly for a label equality with a non-empty value, and then stores the escaped name and value |
| QueryCompiler.Emitted | pkg/postgresql/client.go:500-537 | A known matcher adds one fragment, except a deferred label equality, which adds none |
| QueryCompiler.FoldFails | pkg/postgresql/client.go:496-537 | Compilation fails exactly when some matcher fails, with the error of the first one that does |
| QueryCompiler.FoldConjuncts | pkg/postgresql/client.go:496-537 | The compiled fragments are the matchers' fragments, in matcher order |
| QueryCompiler.FoldEqualities | pkg/postgresql/client.go:526-527 | The equality map holds exactly the deferred names; each maps to the value of the last matcher on that name |
| QueryCompiler.CompileFails | pkg/postgresql/client.go:514-536 | An unknown matcher type, in either branch, is an error: compilation fails exactly when some matcher's type is unknown, with the first such matcher's error |
| QueryCompiler.SelectedIsWhereParts | pkg/postgresql/client.go:496-537 | The fragments the fold collects are the fragments each matcher emits, concatenated in order |
| QueryCompiler.SelectedCount | pkg/postgresql/client.go:496-537 | The number of fragments is the number of matchers minus the deferred equalities |
| QueryCompiler.CompileConjuncts | pkg/postgresql/client.go:496-537 | A successful compilation's fragments are the matchers' own, in order, one per non-deferred matcher |
| QueryCompiler.CompileEqualities | pkg/postgresql/client.go:520-527 | The equality map's keys are exactly the escaped names of the deferred matchers. A later matcher on the same name overwrites an earlier one |
| QueryCompiler.BuildQuery | pkg/postgresql/client.go:492-560 | The loop over the matchers, the equality suffix and the two time bounds produce the text of the compiled query |
| QueryCompiler.QueryShape | pkg/postgresql/client.go:540-555 | The query fails exactly on an unknown matcher type. Otherwise it selects from the table with the fragments in matcher order, then `time >=` start and `time <=` end, joined with `AND`, then the ` AND labels @> '...'` suffix, which is present exactly when some label equality was deferred. The bounds are the query's own milliseconds |
| QueryCompiler.EscapedLiteral | pkg/postgresql/client.go:562-584 | An escaped value, anchored or not, reads back as the original as a SQL literal |
| QueryCompiler.ClassifyMeansMatcher | pkg/postgresql/client.go:500-537 | Every literal in a matcher's fragment is escaped. Read back, the fragment is the one written with the matcher's own name and value |
| QueryCompiler.NameReadsBack | pkg/postgresql/client.go:501-516 | The name branch's literals read back as the matcher's value |
| QueryCompiler.LabelReadsBack | pkg/postgresql/client.go:518-537 | The label branch's literals read back as the matcher's name and value |
| QueryCompiler.LabelComparisonReadsBack | pkg/postgresql/client.go:519-530 | Equality and inequality fragments read back as the matcher's name and value |
| QueryCompiler.LabelPatternReadsBack | pkg/postgresql/client.go:531-534 | Pattern fragments read back as the matcher's name and anchored value |
| Reader.GatherFails | pkg/postgresql/client.go:387-451 | Gathering fails exactly when some step fails, with the first failing step's error |
| Reader.FetchFails | pkg/postgresql/client.go:387-451 | The read fails exactly when some query fails, with the error of the first query that does |
| Reader.QueryRowsFails | pkg/postgresql/client.go:388-451 | A query fails exactly when it does not compile, the database refuses it, a row does not scan, or `rows.Err` reports an error |
| Reader.FetchedCanonical | pkg/postgresql/client.go:411-417 | Every scanned row carries a label set with sorted names, each once |
| Reader.SameSeriesIff | pkg/postgresql/client.go:417-418 | When names and values are free of byte 0xFF, two rows go to the same series exactly when they have the same metric name and the same label map |
| Reader.SeriesLabelsShape | pkg/postgresql/client.go:420-432 | A new series' labels are `__name__` with the row's name, then one pair per label, each with its value, in ascending name order |
| Reader.NewSeriesLabels | pkg/postgresql/client.go:420-432 | The loop builds those labels |
| Reader.AddRowTouchesOneSeries | pkg/postgresql/client.go:417-442 | One row creates its series if the key is new, with the row's labels. It appends its sample to that series and leaves every other series as it was |
| Reader.GroupNextRow | pkg/postgresql/client.go:417-442 | Scanning one more row turns the series map of the rows so far into that map with the row added |
| Reader.GroupKeys | pkg/postgresql/client.go:404-445 | There is exactly one series per distinct key among the rows |
| Reader.GroupSamples | pkg/postgresql/client.go:439-442 | A series' samples are the samples of the rows with its key, in row order |
| Reader.GroupLabels | pkg/postgresql/client.go:419-437 | A series' labels are those of the first row with its key, fixed when the series was created |
| Reader.GroupSampleCount | pkg/postgresql/client.go:439-442 | The total number of samples equals the number of rows |
| Reader.ScanRows | pkg/postgresql/client.go:404-445 | The row loop succeeds exactly when every row scans, and otherwise returns the first scan error. On success the map is the grouping of all rows so far |
| Reader.ListSeries | pkg/postgresql/client.go:461-466 | The response lists every series of the map exactly once, in some order |
| Reader.ListedInOrder | pkg/postgresql/client.go:461-466 | Once the loop has visited every key, the series listed in visiting order are a valid response |
| Reader.Read | pkg/postgresql/client.go:384-472 | Fails exactly when some query fails, with the first failure's error. Otherwise the response lists exactly the grouping of all rows of all queries, in query and row order |
| Writer.CopyTargetRule | pkg/postgresql/client.go:222-229 | An override wins; otherwise the target is `<table>_tmp` when normalised and `<table>_samples` when not; it is never empty. The fold runs exactly when the target is `<table>_tmp`, including an override naming that table |
| Writer.LineCarriesTimestamp | pkg/postgresql/client.go:238-239 | The COPY line is the metric string, the value and the sample's own millisecond timestamp, separated by spaces, whenever the nanosecond count fits in `int64` |
| Writer.Line | pkg/postgresql/client.go:238-239 | The line for a sample is built with `metricString` |
| Writer.RunPlanStopsAtFirstFailure | pkg/postgresql/client.go:216-305 | Steps run until the first failure. What ran is a prefix of the plan, everything before its last step succeeded, and the error returned is that step's. No error is returned exactly when the whole plan ran and succeeded |
| Writer.RunPlanFailsAt | pkg/postgresql/client.go:216-305 | A failure at step `k` after `k` successes runs exactly `k + 1` steps and returns that error |
| Writer.RunPlanSucceeds | pkg/postgresql/client.go:216-311 | When every step succeeds the whole plan runs and no error is returned |
| Writer.PlanShape | pkg/postgresql/client.go:216-300 | The plan is: the temporary table, the COPY prepare on the target, one line per sample in order, one flush, the six fold steps when the target is `<table>_tmp`, the COPY close, the commit |
| Writer.PlanCopiesSamples | pkg/postgresql/client.go:237-250 | The plan's COPY lines are the samples' lines, in sample order |
| Writer.CommitOnlyLast | pkg/postgresql/client.go:300 | The commit is the plan's last step and appears nowhere else, and the plan itself never rolls back |
| Writer.WriteCommitsIffAllSucceed | pkg/postgresql/client.go:205-312 | No error is returned exactly when `Begin` and every planned step succeed, and then all of them ran. The deferred rollback runs last, exactly when `Begin` succeeded. The commit is reached only if every earlier step succeeded |
| Writer.Step | pkg/postgresql/client.go:216-305 | One call of the transaction, on a plan whose earlier steps all succeeded: on success the log has grown by exactly that planned step and every step so far succeeded; on failure the log and the error are those of running the plan to its first failure |
| Writer.StartCopy | pkg/postgresql/client.go:216-235 | The temporary-table statement, then the choice of copy table and the COPY prepare. The chosen table is the copy target. On success the log holds those two planned steps, all succeeded; on failure it is the plan run to its first failure, with that error |
| Writer.CopySamples | pkg/postgresql/client.go:237-250 | One COPY line per sample, in order, each built with `metricString`. On success the log holds one more planned step per sample, all succeeded; on failure it is the plan run to its first failure, with that error |
| Writer.FoldTemporary | pkg/postgresql/client.go:258-292 | Prepare and run the labels insert, prepare and run the values insert, close both statements. On success the log holds those six planned steps, all succeeded; on failure it is the plan run to its first failure, with that error |
| Writer.FinishCopy | pkg/postgresql/client.go:252-305 | The flush, the fold exactly when the copy table is `<table>_tmp`, the COPY close and the commit. The log and the error are those of the whole plan run to its first failure, or of all of it |
| Writer.Transaction | pkg/postgresql/client.go:216-305 | The steps after the deferred rollback, with a return on the first error, are exactly the plan run until its first failure |
| Writer.Write | pkg/postgresql/client.go:205-312 | A failed `Begin` returns its error and does nothing else. Otherwise the plan runs until its first failure, the deferred rollback follows, and the error is the failing step's |

## Left out

- Configuration and connection setup (`ParseFlags`, `NewClient`, the pg_prometheus bootstrap), `HealthCheck`, `Close`, `ReadOnly`, `Name`, `Describe` and `Collect`: flag parsing, I/O and stubs.
- What PostgreSQL does with the generated SQL (`~`, `@>`, `->>`, the inserts and `ORDER BY`), and the pg_prometheus functions. The model produces statements and does not evaluate them.
- Sample values are opaque 64-bit patterns. `%v` float formatting, `%v` integer formatting, `%q` quoting, RFC 3339 formatting, `json.Marshal` and `json.Unmarshal` are function parameters with no behaviour of their own.
- `Reader.Read`: the database's answers are a function of the command text, with rows and `rows.Err` given in advance. Connection pooling, `rows.Close`, cancellation and concurrency are left out.
- `Reader.Read`: the wrapping `database/sql` adds around a scan error is not modelled; the decoder's or converter's error is returned as it is.
- `Reader.Read`: the response's single `Results[0]` holding every series is modelled as the series list itself. Map iteration order is only constrained as "some permutation of the keys".
- `Labels.MetricString`: the map's visiting order is modelled as any order; the contract holds for all of them.
- `Reader.RowSample`: `time.UnixNano()` on a scanned time is not wrapped to `int64`; times more than about 292 years from the epoch are out of scope.
- `Timestamps.ToTimestamp`: `.UTC()` only changes the location, so it is not modelled. RFC 3339 formatting, which drops sub-second precision, is a parameter.
- `Writer.Write`: the driver's answers are a function of the position in the connection's call log and of the call. Prepared statements are not objects of their own, and a fold statement left open by an early return is not tracked. On that path the deferred rollback ends the transaction anyway.
- `Writer.Write`: the `pgPrometheusLogSamples` printing of each line, the debug and error logging, and the timing are left out.
- The SQL texts of the COPY statement and the two fold inserts (`sqlCopyTable`, `sqlInsertLabels`, `sqlInsertValues`) are not modelled; a prepare action records only the table it names.
- The process-wide prepared `createTmpTableStmt` is represented only by its use in the transaction.
- `Labels.Scan`: the nil branch assigns only a local pointer, so the receiver keeps its value, and the model says so. The conversion of the time, name and value columns is abstract: it succeeds or fails with an error.
