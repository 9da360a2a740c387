# serap, modelled in Dafny

`serap` is a Laravel request-observability package. During a request it collects:

- the request;
- the response;
- the executed queries;
- the reported exceptions.

It masks sensitive values in them and stamps every record with a trace id. It appends the records as JSON lines to `storage/logs/serap.jsonl`, and jobs ship that file in batches of 100 lines to an ingest endpoint.

This project models the decision logic of that pipeline as pure Dafny functions over immutable data, and proves properties of it.

**What is modelled, by module:**

- `Values`: PHP values (`null`, booleans, integers, strings and ordered arrays with string keys), with `$a[$k]`, `$a[$k] = $v` and truthiness.
- `Text`: the PHP string functions the package relies on (`strtolower`, `trim`, `explode`, `implode`, `str_contains`, `stripos`), with ASCII case folding.
- `Jsonl`: the log file as text.
  - Appending a record writes its encoding and a newline.
  - Reading the file back means `file()` with `FILE_IGNORE_NEW_LINES | FILE_SKIP_EMPTY_LINES`.
  - `json_encode` and `json_decode` are a `Codec` parameter, partial on both sides.
- `Masking`: `SerapUtils::mask`, `maskCookieString` and `normalizeKey`.
- `Summarizer`: `SerapUtils::detectResponseType` and `safeContent`.
- `TraceContext`: `SerapUtils::generateTraceId`, `getTraceId` and `writeJsonl`.
- `LegacyUtils`: the older `Utils` class (`mask`, the string-returning `safeContent`, `getTraceId`).
- `LogStore`: `LogBuffer` and `LogRequestLifecycleJob`.
- `Shipper`: `LogSenderJob` and `FlushLogJob`.
- `ResponseWatcher`, `ExceptionWatcher` and `QueryWatcher`: the three watchers.

**What becomes an input.** Everything the code reads from outside is a parameter of the model:

- whether a `flock` is granted;
- the new ULID;
- the clock, the authenticated user and the peak memory;
- the configuration values;
- the HTTP outcome;
- the matches of the SQL regular expressions.

## Model

| member | source | states |
|---|---|---|
| Jsonl.LinesAfterAppend | src/SerapUtils.php:287-293 | Appending a record line and a newline to a file that ends at a line boundary adds exactly that line (if non-empty) to the lines read back. Earlier lines are untouched, and the file still ends at a line boundary. |
| Jsonl.LinesOfJoin | src/Jobs/LogSenderJob.php:72-76 | Non-empty, newline-free lines joined by newlines read back as exactly those lines, with or without a final newline. |
| Masking.NormalizeKeyIsNormal | src/SerapUtils.php:87-93 | `normalizeKey` is idempotent. Its result has no surrounding whitespace, no ASCII upper-case letter and no hyphen. |
| Masking.Mask | src/SerapUtils.php:27-56 | Over the modelled values (no floats or objects), `mask` raises a `TypeError` exactly when a cookie array it visits holds `null` or an array. Otherwise it returns the same keys in the same order. Nested arrays are covered by `Masking.MaskEntryRules`. |
| Masking.MaskEntryRules | src/SerapUtils.php:35-53 | Cookie keys: a string is masked as a cookie string, an array element by element (its keys kept), anything else left alone. Other sensitive keys: the whole value becomes the token. Non-sensitive scalars are kept. A non-sensitive array is replaced by the recursive `mask` with the same sensitive keys and token, which raises nothing. |
| Masking.MaskHidesSensitive | src/SerapUtils.php:27-56 | After masking, no sensitive key keeps its value at any depth. Every sensitive `k=v` part of a cookie string carries the token. |
| Masking.MaskIdempotent | src/SerapUtils.php:27-56 | Masking a masked array again changes nothing, provided the token holds no `;`. |
| Masking.MaskCookieStringParts | src/SerapUtils.php:65-82 | `maskCookieString` keeps the number and order of the `;`-parts. Parts without `=`, or with a non-sensitive key, are kept verbatim. A sensitive part becomes `trim(key)=token`, split at its first `=`. |
| Masking.MaskCookieStringTwice | src/SerapUtils.php:65-82 | Masking a cookie string twice is masking it once. |
| Masking.MaskPasswordExample | src/SerapUtils.php:27-56 | `['password' => 'abc', 'note' => 'ok']` masks to `['password' => '******', 'note' => 'ok']`. |
| Summarizer.DetectResponseType | src/SerapUtils.php:122-150 | A missing, empty or `"0"` Content-Type gives `unknown`. `redirect` comes back only for a redirect whose type matched no label, or for the literal type `redirect`. |
| Summarizer.DetectFollowsTable | src/SerapUtils.php:122-150 | The type is the first label matched, in the order json, html, text, stream, download. Failing that it is `redirect` for a redirect, and otherwise the raw Content-Type. The older `Utils::detectResponseType` (src/Utils.php:43-65) is the same chain of tests, so this covers it too. |
| Summarizer.FirstLabelSteps | src/SerapUtils.php:129-143 | The label search is the `if` chain of substring tests, in source order. |
| Summarizer.TruncateText | src/SerapUtils.php:172-182 | Truncated exactly when there are more than 10000 characters. Then the data is the first 10000 characters followed by `... [TRUNCATED]`; otherwise it is the input. |
| Summarizer.PopUntilFits | src/SerapUtils.php:203-210 | The popping loop leaves a prefix of the array. That prefix is empty or encodes to at most 10000 characters, and every longer prefix encodes to more. |
| Summarizer.SafeContent | src/SerapUtils.php:167-225 | Non-JSON or undecodable content follows the text rule. For decoded JSON, `is_truncated` holds exactly when the encoding exceeds 10000 characters. Then an array is cut to a fitting prefix (or emptied), and a scalar is returned unchanged. |
| Summarizer.SafeContentWithinLimit | src/SerapUtils.php:172-196 | Text of at most 10000 characters comes back unchanged and not truncated. |
| Summarizer.SafeContentKeepsLongestFittingPrefix | src/SerapUtils.php:198-211 | An oversized decoded array becomes its longest prefix that fits, or the empty array when none does. |
| TraceContext.GenerateTraceId | src/SerapUtils.php:98-107 | The new id is stored in the context, and also in the request attributes when there is a request. Every other key is unchanged. |
| TraceContext.GetTraceId | src/SerapUtils.php:241-246 | The context value wins, then the request attribute. An id is generated (and stored) only when both are absent, and the result is never null. |
| TraceContext.GetTraceIdStable | src/SerapUtils.php:241-246 | Two consecutive calls return the same id, whatever id a second generation would have produced. |
| TraceContext.EventLevel | src/SerapUtils.php:270-272 | An `exception` event is always logged at level `error`; any other event keeps the given level. |
| TraceContext.ResolveAuth | src/SerapUtils.php:280 | The `auth` field is null exactly when the argument, `context['auth']`, `context['user']` and the authenticated user are all null. A non-null argument wins. |
| TraceContext.WriteJsonl | src/SerapUtils.php:268-294 | Writing resolves the trace id first. Without the lock the file is unchanged; with it the file grows and its old text is a prefix of the new. |
| TraceContext.WriteJsonlReadsBack | src/SerapUtils.php:274-293 | The file gains one line. That line decodes to a record with the resolved trace id, and with level `error` for an exception. |
| LegacyUtils.LegacyMask | src/Utils.php:14-31 | The older `mask` returns the same keys in the same order. |
| LegacyUtils.LegacyMaskRules | src/Utils.php:20-27 | A key is matched only by lower-casing it, with no trim and no hyphen mapping. A match gets the token. Any other scalar is kept, and a nested array is masked with the configured keys and the default token. |
| LegacyUtils.LegacyNestedIgnoresCaller | src/Utils.php:25-27 | Below the top level the caller's keys and token make no difference. |
| LegacyUtils.LegacyMaskLeaksNested | src/Utils.php:26 | With nothing configured, masking `['user' => ['password' => 'abc']]` for `password` returns it unchanged. The nested password is not hidden. |
| LegacyUtils.FixedLegacyMask | src/Utils.php:14-31 | The corrected `mask`, which recurses with the caller's keys and token, keeps keys and their order. |
| LegacyUtils.FixedLegacyMaskHides | src/Utils.php:14-31 | With the corrected recursion, no listed key keeps its value at any depth. |
| LegacyUtils.LegacySafeContent | src/Utils.php:67-123 | The older `safeContent` is the JSON encoding of the same summary plus a `notice`. It is the empty string when encoding fails. |
| LegacyUtils.LegacySafeContentReadsBack | src/Utils.php:67-123 | Decoding the result gives the keys `is_truncated`, `notice` and `data`, holding the newer version's flag and data. `notice` is `TRUNCATED` exactly when the flag is set. |
| LegacyUtils.LegacyGetTraceId | src/Utils.php:130-133 | The older `getTraceId` is the context value under `gol_trace_id`, or null. It never generates an id. |
| LogStore.Add | src/LogBuffer.php:13-20 | `add` appends the entry at the end of the buffer. Reaching 50 entries flushes, so afterwards the buffer always holds fewer than 50. |
| LogStore.Flush | src/LogBuffer.php:22-42 | `flush` always empties the buffer. It leaves the file untouched when the buffer was empty or the lock is refused, and never rewrites the old content. |
| LogStore.FlushLines | src/LogBuffer.php:31-39 | Under the lock, the file reads back as its old lines followed by one line per buffered entry, in buffer order. |
| LogStore.PendingAfterAddAndFlush | src/LogBuffer.php:44-47 | `hasPending` after `add` holds exactly when no flush was triggered. After `flush` it is false. |
| LogStore.LinesOfAppendAll | src/LogBuffer.php:32-37 | Appending entries one line each reads back as the old lines followed by their encodings, in order. |
| LogStore.AddLogs | src/Jobs/LogRequestLifecycleJob.php:19-21 | The `add` loop keeps the buffer below 50. The file gains exactly the written entries. The written entries followed by the buffer are an in-order subsequence of the old buffer followed by the logs, and equal to it when every lock is granted. |
| LogStore.HandleLifecycle | src/Jobs/LogRequestLifecycleJob.php:17-24 | After the job the buffer is empty. The file gains an in-order subsequence of the pending entries followed by the logs, with nothing reordered or duplicated. It gains all of them when every lock is granted, and nothing when there was nothing to write. |
| Shipper.Batch | src/Jobs/LogSenderJob.php:51-52 | The batch is the decoding of the first min(100, n) lines. Undecodable lines become null. |
| Shipper.SendLogs | src/Jobs/LogSenderJob.php:26-86 | No key, no file, or no non-empty line: nothing happens. The payload file is written whenever the POST returns a response. On 200 or 201 the file becomes the lines after the batch, each ending in a newline; otherwise it is untouched. |
| Shipper.SendLogsExample | src/Jobs/LogSenderJob.php:71-76 | 150 lines and status 200: 100 are sent and 50 remain. |
| Shipper.SendLogsEmptiesSmallFile | src/Jobs/LogSenderJob.php:72-77 | A successful run over at most 100 lines leaves an empty file. |
| Shipper.SendLogsUsesSnapshotOnly | src/Jobs/LogSenderJob.php:44-76 | The outcome depends on the file only through the non-empty lines read at the start. |
| Shipper.FlushLogs | src/Jobs/FlushLogJob.php:26-68 | `FlushLogJob` has the same guard and batch, and writes no payload. Any 2xx rewrites the file to the remaining lines joined by newlines, with no final newline. Any other outcome leaves the file untouched. |
| Shipper.FlushLogsEmptiesSmallFile | src/Jobs/FlushLogJob.php:57-61 | A successful run over at most 100 lines leaves an empty file. |
| Shipper.FlushLogsMergesNextLine | src/Jobs/FlushLogJob.php:60-61 | After a successful run that leaves lines behind, the next appended record is glued onto the last remaining line. |
| Shipper.FixedFlushLogs | src/Jobs/FlushLogJob.php:57-61 | With the rewrite ending in a newline, the file reads back as the remaining lines and ends at a line boundary. |
| Shipper.FixedFlushLogsKeepsNextLine | src/Jobs/FlushLogJob.php:57-61 | With the corrected rewrite, a record appended afterwards reads back as a line of its own. |
| ResponseWatcher.HandleResponse | src/Watchers/ResponseWatcher.php:12-74 | The `Serap-Trace-Id` header is set exactly when the trace id is truthy, to its string form. Entries are produced (1 to 3 of them) unless masking the headers raises. The headers masked are the response's headers with that header in place. |
| ResponseWatcher.HandleResponseEntries | src/Watchers/ResponseWatcher.php:27-69 | The order is `request` (when a request context exists), then `response`, then `query` (when queries were recorded). All carry the request's trace id and a level: `error` for status 500 and above, `info` otherwise. |
| ResponseWatcher.StoredHeaders | src/Watchers/ResponseWatcher.php:20-22 | With a truthy trace id the stored headers hold `serap-trace-id` as a one-element list of its string form. A new entry is added last, and every other stored header keeps its place. Without a trace id the stored headers are unchanged. |
| ResponseWatcher.ResponseHeaders | src/Watchers/ResponseWatcher.php:20-54 | `all()` after the watcher lists the stored headers, the trace header among them, and then `set-cookie` last with every cookie, exactly when there is one. The application's headers keep their places, and a new trace header comes right after them, before the cookies. |
| ResponseWatcher.ResponseHeadersCookieOrder | src/Watchers/ResponseWatcher.php:20-54 | For a response with a session cookie, the logged headers are `cache-control`, `date`, `serap-trace-id`, `set-cookie`, in that order. |
| ResponseWatcher.HandleResponseHidesHeaders | src/Watchers/ResponseWatcher.php:54 | The logged response headers are the masked response headers, including the `serap-trace-id` header the watcher set, and they hide every sensitive key: each sensitive header holds the token and each sensitive cookie part carries it, at any depth. |
| ResponseWatcher.HandleResponseTraceHeader | src/Watchers/ResponseWatcher.php:20-54 | With a truthy trace id the logged headers carry `serap-trace-id`. It holds the token when `serap_trace_id` is a sensitive key, and otherwise the id as a one-element list (when the list key `0` is not itself sensitive). |
| ResponseWatcher.HandleResponseContext | src/Watchers/ResponseWatcher.php:24-57 | The response context carries the same level and the masked headers, taken after the watcher set its trace header. `duration_ms` is null exactly when no start time was recorded. |
| ExceptionWatcher.Report | src/Watchers/ExceptionWatcher.php:21-51 | The reported set only grows, by this throwable's fingerprint at most. A throwable already reported changes nothing. The fingerprint is recorded even when the lock is refused, and the file only grows. |
| ExceptionWatcher.ReportOnce | src/Watchers/ExceptionWatcher.php:22-28 | Reporting the same throwable a second time, under any circumstances, changes nothing. |
| ExceptionWatcher.ReportAppendsOneLine | src/Watchers/ExceptionWatcher.php:36-50 | A first report under the lock adds exactly the encoded record as a line. The record carries the trace id `getTraceId` resolves. |
| ExceptionWatcher.ExceptionRecordFields | src/Watchers/ExceptionWatcher.php:38-46 | The record has event `exception` and level `error`. |
| ExceptionWatcher.BuildPreview | src/Watchers/ExceptionWatcher.php:78-89 | The preview loop produces the preview window. |
| ExceptionWatcher.PreviewWindow | src/Watchers/ExceptionWatcher.php:78-89 | Preview keys are the contiguous lines max(line−9, 1) to min(line+10, count), in order. Only the failing line has the `    // <--- error line` suffix; the others are verbatim. |
| ExceptionWatcher.Frame | src/Watchers/ExceptionWatcher.php:99-104 | A frame has exactly the fields `file`, `line`, `function` and `class`, each the original frame's value or null. |
| ExceptionWatcher.Frames | src/Watchers/ExceptionWatcher.php:73-106 | The trace keeps the first min(limit, n) frames, in order. |
| ExceptionWatcher.FormatExceptionDataShape | src/Watchers/ExceptionWatcher.php:68-108 | The preview is empty when the file cannot be read, and the trace has at most `traceLimit` frames. |
| QueryWatcher.ShouldSkipQueryIff | src/Watchers/QueryWatcher.php:35-50 | A query is skipped exactly when it names `jobs`, `failed_jobs`, `cache` or `sessions`, in any letter case, between double quotes, between backticks, or between single spaces. |
| QueryWatcher.ColumnKeyIsNormal | src/Watchers/QueryWatcher.php:115-121 | The column normalisation is idempotent. Its result has no backtick, double quote or space at either end, no upper-case letter and no hyphen. |
| QueryWatcher.SensitiveColumns | src/Watchers/QueryWatcher.php:57 | With nothing configured, the sensitive list is `['password']`. |
| QueryWatcher.Consume | src/Watchers/QueryWatcher.php:85-87 | A binding that is present and not null is stored, masked by its column, under the slot's key, and the cursor advances by one. A missing or null binding changes nothing. |
| QueryWatcher.TakeValues | src/Watchers/QueryWatcher.php:77-81 | The IN loop collects the set bindings under the cursor in order, each masked by the column, and advances the cursor past exactly those. |
| QueryWatcher.InnerInNeverMatches | src/Watchers/QueryWatcher.php:60-74 | The predicate pattern's match ends at `?` or `(` and holds no `)`. So the IN-list pattern run on it never matches. |
| QueryWatcher.PredicateStep | src/Watchers/QueryWatcher.php:61-89 | A predicate match only moves the cursor forward, and only over set bindings. |
| QueryWatcher.MapBindingsReference | src/Watchers/QueryWatcher.php:52-113 | The mapper puts the i-th leading set binding into the query's i-th slot, masked when the column is sensitive. The slots run predicates in order (BETWEEN gives `_from` and `_to`, IN gives none), then `SET` columns, then `INSERT` columns. Filling stops at the first null binding or when the slots run out, and nothing else is mapped. |
| QueryWatcher.MapBindingsCursor | src/Watchers/QueryWatcher.php:55-110 | Across the three passes the cursor never passes the number of bindings, nor a null one. |
| QueryWatcher.ConsumeAllFills | src/Watchers/QueryWatcher.php:93-110 | Consuming over a list of columns fills the first n of them, where n stops at the first null binding. A null stalls the cursor for every later column. |
| QueryWatcher.PredicatePassSkipsInLists | src/Watchers/QueryWatcher.php:60-89 | As written, the predicate pass advances past every placeholder except those inside IN lists. |
| QueryWatcher.InListBindingMisattributed | src/Watchers/QueryWatcher.php:72-88 | `WHERE password IN (?) AND id = ?` with bindings `'hunter2', 1` maps to `['id' => 'hunter2']`. |
| QueryWatcher.FixedPredicatePassAligned | src/Watchers/QueryWatcher.php:72-83 | With the IN list counted, every match starts reading at its own first placeholder, until a null stops the cursor. |
| QueryWatcher.FixedAgreesWithoutIn | src/Watchers/QueryWatcher.php:60-89 | Without IN matches, the corrected and the original predicate passes agree. |
| QueryWatcher.FixedInListMasked | src/Watchers/QueryWatcher.php:72-83 | With the correction, the query above maps to `['password' => ['******'], 'id' => 1]`. |
| QueryWatcher.UpdateExample | src/Watchers/QueryWatcher.php:52-113 | `UPDATE users SET password = ? WHERE id = ?` with `'secret', 42` maps to `['password' => '******', 'id' => 42]`. The `SET` pass finds no binding left. |
| QueryWatcher.InsertColumns | src/Watchers/QueryWatcher.php:103-104 | The `INSERT` pass has one column per comma-separated name in the captured list. Each column is a normalised key, free of backquotes and double quotes. |
| QueryWatcher.RecordQuery | src/Watchers/QueryWatcher.php:13-32 | A skipped query leaves the `serap_queries` list alone. Any other query is appended after the existing ones, with its SQL and the bindings of the mapper as written. |
| QueryWatcher.RecordQueryLeaksInList | src/Watchers/QueryWatcher.php:19-23 | For `WHERE password IN (?) AND id = ?` with bindings `'hunter2', 1`, the recorded bindings are `['id' => 'hunter2']`: the password is logged in clear. |
| QueryWatcher.FixedRecordQuery | src/Watchers/QueryWatcher.php:13-32 | The listener with the corrected mapper keeps the same list discipline: skipped queries leave the list alone, others are appended after the existing ones. |
| QueryWatcher.FixedRecordQueryMasksInList | src/Watchers/QueryWatcher.php:19-23 | With the corrected mapper, the same query is recorded with `['password' => ['******'], 'id' => 1]`. |

## Left out

- **File system.**
  - Files are their text. `SplFileObject`, `storage_path` and `file_exists` are not modelled.
  - A granted `flock(LOCK_EX)` is a boolean parameter, one per flush in `LogRequestLifecycleJob`.
  - Concurrent writers and the shipper running between flushes are out of scope. The model is sequential.
- **Response header bag.** Symfony's `ResponseHeaderBag` is not part of this model. The model follows its behaviour: `set` lower-cases the name and replaces in place or appends, and `all()` lists cookies last under `set-cookie`, one rendered string each.
  - ResponseWatcher.ResponseHeaders: the stored headers are taken as given. The bag never stores a `set-cookie` header of its own, and the model does not re-check that.
  - Rendering a cookie (`Cookie::__toString`) is not modelled. Cookies arrive as their strings.
- **JSON.** `json_encode` and `json_decode` are the `Codec` parameter.
  - Theorems about reading back assume that encodings hold no newline and that decoding undoes encoding. `JSON_UNESCAPED_SLASHES` gives the first.
  - The encoding flags and the character-level format are not modelled.
- **md5.** The dedup fingerprint is compared as the joined text that is hashed. md5 collisions are not modelled.
- **Regular expressions.**
  - The SQL patterns of `mapBindingsWithColumns` are not interpreted. Their matches are inputs: the predicate matches, the `SET` captures and the `INSERT` list.
  - Predicate matches are constrained to the shape the pattern can produce. `SET` and `INSERT` captures are unconstrained strings.
  - Only the IN-list pattern is computed, on the matched text.
  - `\w` and `\s` are taken as ASCII.
- **Environment values.** These are all parameters:
  - the ULID (`Str::ulid()`);
  - the clock (`now()->toISOString()`);
  - the authenticated user (`getAuthUser`);
  - the peak memory (`getMemoryUsage`, a float);
  - the rounded duration (`microtime`, a float);
  - the configuration (`config()`).
- **HTTP.** The client, its headers and timeouts, and the `Log::` messages are not modelled. The POST's outcome is an input: a status, or a throw.
- **PHP arrays.** Array keys are strings. PHP's conversion of numeric-string keys to integers is not modelled.
- **Floats and objects.** `Value` has neither, because the model only needs to tell scalars from arrays.
  - A decoded JSON body with a fractional number exists only as whatever value the `Codec` gives it.
  - Float and `DateTime` query bindings cannot be represented.
  - In `mask`, a float cookie element would be coerced to a string. An object without `__toString` would raise a `TypeError`. Neither case is covered by `Masking.Mask`.
- **Per-entry readings.** `ResponseWatcher` calls `now()` and `getAuthUser()` once per entry. The model takes one clock reading and one user for all entries of a response, so it cannot show two entries with different times.
- **Line endings.** `file()` with `FILE_IGNORE_NEW_LINES` is modelled as splitting on `\n` only. The writers use `PHP_EOL`, taken to be `\n`.
- **Other repository parts.** These are not part of this model:
  - `readJsonl`, `getPath` and `getAuthUser`;
  - the middleware, `RequestWatcher`, the logger and writer services;
  - the one-line wrapper jobs, service providers, commands and facades.
- **Request lifetime.** The exception watcher's static `$reported` set is the `reported` field of a `Watch` value. Its lifetime across requests is not modelled.
- **Per-member notes.**
  - LegacyUtils.LegacyMask: `in_array` in `Utils::mask` is a loose comparison, so two different numeric strings such as `"10"` and `"1e1"` compare equal. The model compares keys exactly.
  - Shipper.FlushLogs: the job catches only `\Exception`, so an `\Error` thrown by the HTTP client escapes it. The model treats every throw as caught. The log file is untouched either way.
  - ExceptionWatcher.Frames: `$traceLimit` is a natural number. A negative limit, which `array_slice` would read as "all but the last n", is not modelled. The watcher always uses the default of 10.
  - ExceptionWatcher.FormatExceptionDataShape: the preview keys are decimal strings. PHP stores them as integer keys.

## Findings

| source | as written | input that shows it | evidently intended | confidence | as-written member | corrected member |
|---|---|---|---|---|---|---|
| src/Watchers/ExceptionWatcher.php:60-65 | The fingerprint is `md5` of class, file, line and message joined by `\|`, a character that may occur inside a file path or message. | Two throwables of class `E`, one from file `a\|1` line 2 with message `m`, the other from file `a` line 1 with message `2\|m`, share the text `E\|a\|1\|2\|m`. The second is never reported. | Distinct throwables get distinct fingerprints, for example by hashing a length-prefixed encoding of the fields, as `serialize` writes them. | not executed | ExceptionWatcher.FingerprintAmbiguous | ExceptionWatcher.FixedFingerprintInjective |
| src/Utils.php:26 | Nested arrays are masked with `self::mask($value)`, which drops the caller's key list and token. | `Utils::mask(['user' => ['password' => 'abc']], ['password'])`, with no keys configured, returns its input unchanged. | Recurse with the same keys and token, as `SerapUtils::mask` does at src/SerapUtils.php:51. | not executed | LegacyUtils.LegacyMaskLeaksNested | LegacyUtils.FixedLegacyMaskHides |
| src/Jobs/FlushLogJob.php:61 | The remaining lines are written as `implode(PHP_EOL, $remaining)`, with no newline after the last one. | A 101-line file and a 2xx response leave one line with no newline. The next record appended is glued onto it, and neither decodes. | End every remaining line with a newline, as src/Jobs/LogSenderJob.php:76 does. | not executed | Shipper.FlushLogsMergesNextLine | Shipper.FixedFlushLogsKeepsNextLine |
| src/Watchers/QueryWatcher.php:74 | The IN-list pattern is run on the predicate match. That match ends at `(`, so the pattern never matches and the list's bindings are never consumed. | `WHERE password IN (?) AND id = ?` with bindings `'hunter2', 1` records `['id' => 'hunter2']`: the password is logged in clear under `id`. | The IN branch consumes one binding per `?` in the list, as its comment says, so that later columns read their own bindings. | not executed | QueryWatcher.InListBindingMisattributed | QueryWatcher.FixedPredicatePassAligned |
