# Redis client, console log line and alert severity — a Dafny model

This project models three pieces of the core-ng framework.

- **The Redis command client (`RedisImpl`).** For each operation the model covers:
  - the argument checks it makes before touching the pool;
  - how it borrows one pooled connection and returns it, marked broken only after an I/O failure;
  - the exact RESP2 frames it writes, in order;
  - how it turns the replies into its answer.

  The operations are `getBytes`, `set`, `expire`, `del`, `increaseBy`, `multiGetBytes`, both `multiSet` overloads, the cursor loop of `forEach`, the pipelined `expirationTime(keys)` and `publish`. The private `expirationTime(Duration)` and `checkSlowOperation` are modelled too.
- **The console log appender (`ConsoleAppender`).** The model covers `filterLineSeparator`, `appendList` and the order of the `key=value` segments, each introduced by the `" | "` splitter, that that `message(ActionLogMessage)` and `message(StatMessage)` build.
- **The monitor's `Alert.severity(result)`.**

## How the model is built

- **Connection.** A connection (module `Connection`) is a log of the RESP2 tokens written so far plus the queue of replies still to arrive.
  - A token is an array header or a blob string.
  - An incoming item is a reply, or a fault that stands for any `IOException` while reading.
  - `ParseFrames` reads a token log back into command frames. `ParseSerializeAll` proves that every sequence of frames the client writes can be recovered from the token stream (the byte-level RESP encoding of each token is not modelled).
- **Pool.** The pool (module `Pool`) is a history of `Borrowed` / `Returned(broken)` events. `Balanced` is the invariant that every borrow is closed by exactly one return.
- **Redis operations.** Every operation in `Redis`, `RedisBatch` and `RedisScan` returns an `Outcome`: the client afterwards, plus a `Result`.
  - Shared predicates (`ReturnedOnce`, `Rejected`, `Wrote`, `ReadOne`, `AnswersWith`) state what an operation does to the pool, what it writes and how it answers.
  - A `CallerError` is a thrown `Error` (bad arguments).
  - `IOFailure` is an `UncheckedIOException`.
  - `ServerError` is a `RedisException` from an error reply.
  - `UnexpectedReply` is a reply of the wrong type.
- **Text encoding.** `Encodings.Encode` is the client's string-to-bytes encoding, taken as UTF-8 over code points. `Encodings.Decode(Encode(s)) == s` is proved. `Text.DecimalString` and `Text.ParseDecimal` are the decimal form `encode(long)` sends, and they are proved to round-trip.
- **Durations.** A duration is a number of nanoseconds. `Duration.toMillis` truncates toward zero (`Common.ToMillis`).
- **Log lines.** A log line is the pre-formatted date followed by rendered segments. A segment is either bare text or `key=value`, each preceded by the splitter `" | "` (`LOG_SPLITTER`). Numbers that the source formats with `DecimalFormat` arrive as ready-made strings.

## Model

| member | source | states |
|---|---|---|
| Redis.NewClient | core-ng/src/main/java/core/framework/internal/redis/RedisImpl.java:56 | a new client reports operations slower than 500 ms (500 000 000 ns) and has a pool history with nothing outstanding |
| Redis.SlowOperationThreshold | core-ng/src/main/java/core/framework/internal/redis/RedisImpl.java:72-74 | only the threshold changes (the pool is untouched), and from then on an operation is reported as slow exactly when it took longer than the new threshold |
| Redis.SlowOperationIsStrictAndMonotone | core-ng/src/main/java/core/framework/internal/redis/RedisImpl.java:428-432 | an operation is reported as slow exactly when it took strictly more than the threshold: exactly the threshold is not slow, and anything longer than a slow operation is slow too |
| Redis.ExpirationArgument | core-ng/src/main/java/core/framework/internal/redis/RedisImpl.java:434-438 | an expiration is accepted exactly when it is at least one whole millisecond (millis after truncation >= 1), and then the argument is the decimal millisecond count; otherwise the call fails with "expiration time must be longer than 1ms" |
| Redis.Finish | core-ng/src/main/java/core/framework/internal/redis/RedisImpl.java:106-110 | whatever the body produced, the borrowed item goes back to the pool exactly once, marked broken if and only if the failure was an I/O failure; the result and the threshold are passed through |
| Redis.ReturnedOnceKeepsBalance | core-ng/src/main/java/core/framework/internal/redis/RedisImpl.java:100-110 | every operation that got past its argument checks leaves a balanced pool history balanced, with no connection left outstanding: none leaks and none is returned twice |
| Redis.GetBytes | core-ng/src/main/java/core/framework/internal/redis/RedisImpl.java:97-116 | one borrow and one return; exactly the frame GET key is written and one reply read; the answer is the bulk string (absent for a null bulk), a server error for an error reply, an I/O failure (item broken) when no reply arrives |
| Redis.Set | core-ng/src/main/java/core/framework/internal/redis/RedisImpl.java:128-159 | an expiration under 1 ms fails before anything is borrowed or written; otherwise exactly one frame SET key value [NX] [PX millis] is written (NX only when onlyIfAbsent, PX only with an expiration) and one reply is read |
| Redis.SetCommand | core-ng/src/main/java/core/framework/internal/redis/RedisImpl.java:132-158 | once the expiration argument has been computed, set borrows one item, writes exactly its SET frame, reads one reply and answers through the SET reply rule |
| Redis.SetTrueIffOk | core-ng/src/main/java/core/framework/internal/redis/RedisImpl.java:146-147 | set answers true if and only if the reply is the simple string "OK", and false if and only if it is a null bulk string (NX not applied) or another simple string |
| Redis.WriteSetCommand | core-ng/src/main/java/core/framework/internal/redis/RedisImpl.java:135-144 | the announced array length 3 + NX + 2·PX always equals the number of blob strings that follow, so the writes form exactly one well-formed SET frame and read nothing |
| Redis.WroteParses | core-ng/src/main/java/core/framework/internal/redis/RedisImpl.java:136-145 | whatever an operation writes reads back on the server side as exactly the frames it meant to send, each header announcing exactly the strings that follow |
| Redis.Expire | core-ng/src/main/java/core/framework/internal/redis/RedisImpl.java:162-179 | writes PEXPIRE key millis with the milliseconds as given (zero and negative included, no check), reads one integer reply, returns the item once |
| Redis.Del | core-ng/src/main/java/core/framework/internal/redis/RedisImpl.java:182-202 | no keys fails with "keys must not be empty" and touches nothing; otherwise one DEL frame carrying every key in order, one integer reply |
| Redis.DelSendsEveryKey | core-ng/src/main/java/core/framework/internal/redis/RedisImpl.java:189 | the server receives a single DEL command whose arguments decode back to exactly the keys given, in order |
| Redis.IncreaseBy | core-ng/src/main/java/core/framework/internal/redis/RedisImpl.java:205-224 | writes INCRBY key increment; an error reply (a non-numeric value) fails the call but returns the item not broken |
| Redis.Publish | core-ng/src/main/java/core/framework/internal/redis/RedisImpl.java:409-426 | writes PUBLISH channel message with the message bytes untouched and reads one integer reply |
| Protocol.SetFrame | core-ng/src/main/java/core/framework/internal/redis/RedisImpl.java:135-144 | the SET frame has 3 + NX + 2·PX elements: SET, the key, the value, NX in fourth place when requested, and PX and the millisecond count as the last two |
| Protocol.ParseSetFrameRoundTrip | core-ng/src/main/java/core/framework/internal/redis/RedisImpl.java:135-144 | the key, value, NX flag and expiration can all be read back from the SET frame, so no two different set requests produce the same frame |
| Protocol.ScanFrame | core-ng/src/main/java/core/framework/internal/redis/RedisImpl.java:339-348 | each SCAN frame has six elements, SCAN cursor MATCH pattern COUNT 500, and the cursor and pattern decode back to the strings given |
| Protocol.KeyValueArgumentsAlternate | core-ng/src/main/java/core/framework/internal/redis/RedisImpl.java:271-274 | the MSET arguments alternate: entry i's key sits at 2·i and its value at 2·i + 1 |
| Protocol.KeyValuePairsRoundTrip | core-ng/src/main/java/core/framework/internal/redis/RedisImpl.java:271-274 | pairing the MSET arguments back up gives exactly the entries, none lost, split or reordered |
| Protocol.MultiSetFrame | core-ng/src/main/java/core/framework/internal/redis/RedisImpl.java:269-270 | the MSET frame has 1 + 2·n elements and starts with MSET, matching the announced array length |
| RedisBatch.MultiGetBytes | core-ng/src/main/java/core/framework/internal/redis/RedisImpl.java:236-260 | no keys is refused; otherwise one MGET frame with every key; it fails with an I/O failure exactly when no reply arrives, with a server error carrying the message when the reply is an error reply, and otherwise with an unexpected reply; it succeeds exactly when the reply is a non-null array whose elements are all bytes or null with only nulls past the last key, and then, for distinct keys, gives exactly the (key, value) pairs of the non-null replies in key order |
| Connection.DecodeEncodeAll | core-ng/src/main/java/core/framework/internal/redis/RedisImpl.java:243 | the key arguments of MGET (and DEL) decode back to exactly the keys, in order, so reply i is matched with the key in position i |
| RedisBatch.CollectReplies | core-ng/src/main/java/core/framework/internal/redis/RedisImpl.java:245-248 | the loop fails, always as an unexpected reply, exactly when the reply is not readable: an element the cast `(byte[])` rejects (anything but a bulk string or null), or a non-null value past the last key (keys[i] out of bounds); a null element is skipped; for distinct keys its map is exactly the present (key, value) pairs in key order |
| RedisBatch.PutExistingKey | core-ng/src/main/java/core/framework/internal/redis/RedisImpl.java:247 | `LinkedHashMap.put` of a key already present replaces the value of its entry in place; the order and every other entry stay as they were |
| RedisBatch.PutNewKey | core-ng/src/main/java/core/framework/internal/redis/RedisImpl.java:247 | `LinkedHashMap.put` of a key not yet present appends the new entry at the end and leaves the others unchanged |
| RedisBatch.CollectOkIff | core-ng/src/main/java/core/framework/internal/redis/RedisImpl.java:245-248 | the reference fold succeeds exactly when the reply is readable, and every failure is an unexpected reply |
| RedisBatch.NoRecoveryAfterFailure | core-ng/src/main/java/core/framework/internal/redis/RedisImpl.java:245-248 | once a prefix of the reply makes the loop fail, the rest of the reply cannot change the outcome (the cast exception ends the loop) |
| RedisBatch.CollectDistinctKeys | core-ng/src/main/java/core/framework/internal/redis/RedisImpl.java:239-248 | for distinct keys and a readable reply (every element bytes or null, only nulls past the last key), the map is exactly the list of (key, value) pairs for the non-null replies, in key order |
| RedisBatch.PresentEntriesIff | core-ng/src/main/java/core/framework/internal/redis/RedisImpl.java:246-247 | with distinct keys, a key is in the result if and only if its reply holds bytes (is not null), and then it maps to those bytes |
| Connection.BytesOf | core-ng/src/main/java/core/framework/internal/redis/RedisImpl.java:246 | the element holds bytes exactly when it is a non-null bulk string, and an element that survives the cast `(byte[])` without bytes is null (a null bulk string or a null array) |
| RedisBatch.WriteKeyValuesWritesArguments | core-ng/src/main/java/core/framework/internal/redis/RedisImpl.java:271-274 | the entry loop writes exactly the blob strings of the alternating key/value arguments, in entry order |
| RedisBatch.WriteMultiSetCommand | core-ng/src/main/java/core/framework/internal/redis/RedisImpl.java:269-274 | the header 1 + 2·n, MSET and the entry loop together write exactly one well-formed MSET frame |
| RedisBatch.MultiSet | core-ng/src/main/java/core/framework/internal/redis/RedisImpl.java:263-288 | an empty map fails with "values must not be empty" and touches nothing; otherwise one MSET frame and one simple-string reply, item returned once |
| RedisBatch.WriteSetWithExpirationAll | core-ng/src/main/java/core/framework/internal/redis/RedisImpl.java:298-305 | the pipeline writes one SET key value PX millis frame per entry, back to back, in entry order, reading nothing |
| RedisBatch.MultiSetWithExpiration | core-ng/src/main/java/core/framework/internal/redis/RedisImpl.java:290-318 | an empty map is refused before the expiration is checked, and an expiration under 1 ms is refused before anything is borrowed; otherwise it writes one SET ... PX frame per entry and reads exactly n replies; it fails with an I/O failure exactly when fewer than n replies arrive, and it succeeds exactly when none of the n replies is an error |
| RedisBatch.ReadAllOutcome | core-ng/src/main/java/core/framework/internal/redis/RedisImpl.java:307 | reading n pipelined replies fails with an I/O failure exactly when n replies do not arrive, consumes exactly n when they do, and succeeds exactly when none is an error, giving them in arrival order |
| RedisBatch.WritePttlAll | core-ng/src/main/java/core/framework/internal/redis/RedisImpl.java:384-388 | the pipeline writes one PTTL key frame per key, in key order |
| RedisBatch.Longs | core-ng/src/main/java/core/framework/internal/redis/RedisImpl.java:391-395 | the cast loop succeeds exactly when every reply is an integer, and then element i is reply i's value |
| RedisBatch.ExpirationTime | core-ng/src/main/java/core/framework/internal/redis/RedisImpl.java:376-407 | no keys is refused; otherwise one PTTL frame per key; it fails with an I/O failure exactly when the n replies do not all arrive; on success element i is the integer that arrived for key i, and it does succeed whenever all n replies are integers |
| RedisScan.AsPage | core-ng/src/main/java/core/framework/internal/redis/RedisImpl.java:350-353 | a SCAN reply is usable exactly when it is a non-null array of at least two elements whose element 0 survives the cast `(byte[])` (bytes or null) and whose element 1 is a non-null array; the page's cursor is null exactly when element 0 is null and is otherwise its decoded bytes, and its keys are element 1 |
| RedisScan.PageKeys | core-ng/src/main/java/core/framework/internal/redis/RedisImpl.java:355-357 | the consumer receives the page's keys in order, each decoded, with null passed on as null (None), up to but not including the first element the cast `(byte[])` rejects; it receives all of them exactly when every element is bytes or null |
| RedisScan.WriteScanCommand | core-ng/src/main/java/core/framework/internal/redis/RedisImpl.java:342-348 | the announced length 6 and the six blob strings form exactly one SCAN frame |
| RedisScan.ScanOnce | core-ng/src/main/java/core/framework/internal/redis/RedisImpl.java:342-357 | with a null cursor, the iteration writes only the array header and SCAN before `encode(cursor)` fails, reads nothing and fails with an unexpected reply; otherwise it writes one SCAN frame, consumes one reply, and yields a page exactly when that reply parses as one; it fails with an I/O failure exactly when no reply arrives, with a server error for an error reply and with an unexpected reply for any other reply that is not a page, and it succeeds exactly when the page's keys all survive their cast |
| RedisScan.AdvanceKeepsStep | core-ng/src/main/java/core/framework/internal/redis/RedisImpl.java:341-359 | each iteration keeps the loop invariant (cursors sent in order, pages parsed from the replies, consumer and count bookkeeping) or ends the loop in a state that satisfies the exit condition: a non-I/O failure after an unanswered SCAN means that reply was not a page, and is a server error exactly when it was an error reply; a failure with every SCAN answered means a key failed its cast or, if all keys passed, the last cursor was null and the next SCAN was half written |
| RedisScan.ScanLoop | core-ng/src/main/java/core/framework/internal/redis/RedisImpl.java:340-359 | the do-while loop starts at "0", sends each returned cursor, and ends exactly at the first page whose cursor is "0", or at the first failure: a missing reply, a reply that is not a page (a server error for an error reply), a key that fails its cast, or a null cursor, whose page's keys are all handed over first |
| RedisScan.EndedOnGoodScan | core-ng/src/main/java/core/framework/internal/redis/RedisImpl.java:340-359 | if the replies are k+1 pages of keys whose cursors are not "0" except the last, the loop ends without failure after exactly k+1 pages |
| RedisScan.NothingSentAfterNull | core-ng/src/main/java/core/framework/internal/redis/RedisImpl.java:344 | no SCAN goes out after a page whose cursor is null, since `encode(cursor)` of that cursor fails |
| RedisScan.EndedOnNullCursor | core-ng/src/main/java/core/framework/internal/redis/RedisImpl.java:341-359 | if the replies are k good pages with cursors other than "0" and then a page of keys with a null cursor, the scan reads exactly k+1 pages, hands every key of the last one to the consumer, writes only the header and SCAN name of one more frame, and fails as an unexpected reply |
| RedisScan.ForEach | core-ng/src/main/java/core/framework/internal/redis/RedisImpl.java:331-369 | the item is borrowed and returned once; the cursors sent are "0" followed by each returned cursor; the written tokens are exactly those SCAN frames, plus the header and SCAN name of one more after a null cursor; the consumer sees exactly the keys of the pages, in order, null keys as null, and returnedKeys counts every key of every page; success means the last page's cursor is "0"; an I/O failure happens exactly when a reply is missing; any other failure after an unanswered SCAN means its reply was not a page, and is a server error carrying the message exactly for an error reply; when the replies are k+1 well-formed pages of which only the last has cursor "0", the scan succeeds after exactly those k+1 pages; and when page k+1 has a null cursor instead, the scan fails as an unexpected reply after handing over all k+1 pages |
| ConsoleAppender.FilterLineSeparator | core-ng/src/main/java/core/framework/internal/log/appender/ConsoleAppender.java:109-119 | null becomes the empty string; otherwise the result has the input's length, with each '\n' and '\r' replaced by a space and every other character kept in place |
| ConsoleAppender.FilterIdempotent | core-ng/src/main/java/core/framework/internal/log/appender/ConsoleAppender.java:109-119 | filtering an already filtered value changes nothing |
| ConsoleAppender.AppendList | core-ng/src/main/java/core/framework/internal/log/appender/ConsoleAppender.java:100-107 | the builder gains the items joined by single commas, with no comma before the first item or after the last |
| ConsoleAppender.SplitJoin | core-ng/src/main/java/core/framework/internal/log/appender/ConsoleAppender.java:100-107 | when no item contains a comma, splitting the appended list on commas gives back exactly the items |
| ConsoleAppender.JoinLength | core-ng/src/main/java/core/framework/internal/log/appender/ConsoleAppender.java:100-107 | the appended list is as long as the items together plus one comma between each two |
| ConsoleAppender.ListSegments | core-ng/src/main/java/core/framework/internal/log/appender/ConsoleAppender.java:46-49 | a list field (correlation_id, client, ref_id) appears exactly when the list is present, as one segment holding the comma-joined items |
| ConsoleAppender.ErrorSegments | core-ng/src/main/java/core/framework/internal/log/appender/ConsoleAppender.java:50-54 | error_code and error_message appear together exactly when an error code is present; the message is then the error message with every line separator replaced (the empty text for null), so it has no line separator |
| ConsoleAppender.ValueSegmentsInOrder | core-ng/src/main/java/core/framework/internal/log/appender/ConsoleAppender.java:57-63 | a context key gives one segment per value, in order, each with the line-separator-filtered value |
| ConsoleAppender.PerformanceStatSegmentsPresence | core-ng/src/main/java/core/framework/internal/log/appender/ConsoleAppender.java:77-84 | a performance stat prints _count first and _elapsed last, always; _reads directly after _count exactly when the read count is known, and _writes directly before _elapsed exactly when the write count is known |
| ConsoleAppender.StatSegments | core-ng/src/main/java/core/framework/internal/log/appender/ConsoleAppender.java:92-96 | one key=value segment per stat, in the map's order |
| ConsoleAppender.MessageHead | core-ng/src/main/java/core/framework/internal/log/appender/ConsoleAppender.java:40-55 | the line starts with the date, the bare result, elapsed, id and action, then the optional correlation_id and error fields, then cpu_time |
| ConsoleAppender.Message | core-ng/src/main/java/core/framework/internal/log/appender/ConsoleAppender.java:36-86 | the action log line is the date followed by the head, the context values, client, ref_id, stats and performance stats, in exactly that order |
| ConsoleAppender.StatMessage | core-ng/src/main/java/core/framework/internal/log/appender/ConsoleAppender.java:88-98 | the stat line is the date followed by one `" | "`-introduced key=value per stat, in order |
| Alert.SetSeverity | ext/monitor/src/main/java/app/monitor/alert/Alert.java:18-20 | the severity becomes WARN if and only if the result is exactly "WARN", and ERROR for any other text or null; no other field changes |
| Alert.SeverityIgnoresPrevious | ext/monitor/src/main/java/app/monitor/alert/Alert.java:18-20 | the new severity depends on the argument only, not on the severity the alert had before |
| Alert.SeverityIsCaseSensitive | ext/monitor/src/main/java/app/monitor/alert/Alert.java:19 | the comparison is exact and case-sensitive: "warn", "Warn", "WARN " and null all give ERROR |

## Left out

- Socket I/O, flushing, the wire encoding of tokens and the reply parser (`RedisConnection`) are not part of this model. Replies are scripted, and each typed read is assumed to behave like this:
  - an error reply gives a server error and leaves the item unbroken;
  - a reply of the wrong shape gives an unexpected-reply failure;
  - a missing reply gives an I/O failure.
- `readAll(n)` is assumed to read all n replies and then report the first error among them. Its source is not part of this model.
- The pool's sizing, idle timeout, checkout timeout and connection creation (`Pool`, `createConnection`, `timeout`, `close`) are left out. Only the borrow/return events are kept.
- Logging, `ActionLogContext.track`, `StopWatch` and the `redisTook` timing of `forEach` are left out because they have no effect on results. Elapsed time is a parameter of `CheckSlowOperation`.
- The façade members (`get`, `multiGet`, the `String` overload of `set`, `hash`, `list`, `admin`) are left out. They only decode or delegate.
- Redis.NewClient: does not model the pool size (5, 50) or the 5-second timeout, which only configure connection management.
- `Encodings.Encode` stands in for the client's `encode`. It is UTF-8 over code points, and surrogate pairs and invalid code points are not modelled.
- Durations are unbounded integers, so `Duration.toMillis` overflow is not modelled.
- A duration argument is never null in the model, so two null-pointer paths are left out:
  - `multiSet(values, null)` is passed to `expirationTime(expiration)` (RedisImpl.java:293) and throws at `expiration.toMillis()` there (RedisImpl.java:435), after the empty check and before any borrow;
  - `expire(key, null)` throws at `expiration.toMillis()` (RedisImpl.java:167), after the borrow and before anything is written, and the finally block returns the item unbroken.
- Java `long` wrap-around of the INCRBY result is not modelled: the server computes it.
- RedisScan.ForEach: `returnedKeys` is a Java `int` (RedisImpl.java:336) that would wrap after 2^31 keys; the model counts with an unbounded `nat`.
- `DateTimeFormatter` and `DecimalFormat` output (the date, elapsed, cpu_time, stats and performance elapsed) are pre-formatted strings.
- Printing to stdout (`append`) and the trace-log path are left out.
- ConsoleAppender.AppendList: items are non-null strings. A null list item, or a null `id`/`action`/`result`, which Java prints as "null", is not modelled.
- A `RuntimeException` other than `IOException` is modelled as a failed result. The finally block still returns the item, unbroken:
  - a failed cast in `multiGetBytes`, `forEach` or `expirationTime`;
  - an array index past the keys in `multiGetBytes`;
  - in `forEach`, a null page array (`keys.length`) and `encode(cursor)` of a null cursor. `RedisEncodings` is not part of this model; `encode(null)` is taken to throw and `decode(null)` to give null.
- The reply parser is not part of this model. A null bulk string and a null array nested in an array reply are both taken to read as Java `null`, which the cast `(byte[])` lets through.
- RedisScan.ForEach: `checkSlowOperation` is not called by `forEach` in the source, and the model does not call it either. The consumer is modelled as the sequence of keys it receives.
- Redis.ExpirationArgument: the message says "longer than 1ms", but an expiration of exactly 1 ms is accepted. The model follows the code.
- The Redis hash, list, set and admin sub-clients, `CollectStatTask` and the rest of the monitor are outside the core modelled here.
