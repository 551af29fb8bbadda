# RapidGate: a verified model of the gateway's algorithms

This project models the stateful algorithms of RapidGate, an LLM gateway, and
proves what they guarantee over whole runs: the rate limiters and the stores
under them, server-sent-event framing, the consistent-hash ring, the Consul
base64 decoder, the circuit breaker, path normalisation, JSON body rules, the
route table with its load-time checks, canary selection and placeholder
expansion. Verify everything with `dafny verify dfyconfig.toml`.

| file | what it holds |
|---|---|
| `Wrappers.dfy`, `Text.dfy`, `Bits.dfy` | options and results; UTF-8, trimming, splitting; shifts and masks |
| `LocalStore.dfy` | the store with a time to live, runs of checks, isolation of keys |
| `TokenBucket.dfy`, `InterleavedChecks.dfy` | the local token bucket; checks whose store accesses interleave |
| `RedisTokenBucket.dfy`, `RedisSlidingWindow.dfy` | the two Lua scripts and the fallbacks |
| `SlidingWindow.dfy` | the deque limiter against a limiter with full history |
| `SseFraming.dfy`, `SseLines.dfy`, `SseStream.dfy` | cutting events, reading them line by line, the stream as the client sees it |
| `SsePrinting.dfy`, `SseLineEndings.dfy` | printed events; LF against CR LF |
| `SseStandard.dfy`, `SsePieces.dfy`, `SseAgreement.dfy`, `SseDifferences.dfy` | the reading of the WHATWG HTML Standard; exactly which texts the handler reads the same; two families it does not |
| `ConsistentHash.dfy`, `Base64.dfy`, `Canary.dfy` | ring, decoder, weighted choice |
| `Breaker.dfy` | the breaker as interleaved steps |
| `PathNormalize.dfy`, `DotSegments.dfy` | the segment stack; RFC 3986's rewriting algorithm |
| `BodyRules.dfy`, `Routing.dfy`, `Placeholders.dfy` | body rules, routes, configuration text |

How the source is read:

- Token amounts and limiter times are reals, in seconds. A run is a list of
  nondecreasing times of checks on one key; `LocalStore` shows that other keys
  do not interfere. Every check is one step, except in `InterleavedChecks`.
- A cached entry is gone once it is as old as its time to live, counted from
  its last write; a Redis key is gone from the instant it expires.
- Breaker steps are the handlers, each under the state lock; a call is a
  half-open attempt, a state read, and at most one completion.
- Texts are sequences of Unicode characters and streams are bytes. The lossy
  UTF-8 decoder is a parameter that reads well-formed UTF-8 back; what it makes
  of malformed bytes is left open, and the framing theorems do not depend on it.
- Hash functions, the regular-expression engine, Unicode upper-casing, the
  environment, the upstream allow-list, and Redis's EXPIRE where its argument is not
  a positive number of seconds, are parameters.
- 32-bit sums in canary selection wrap, as in a release build; a debug build
  panics instead.

Where the code differs from what its names and comments say, the code is
modelled as it is, the lemma named says exactly when the difference shows, and
where a case is not obvious another lemma exhibits it:

- The local 600 s store forgets a token bucket's debt when the bucket takes
  longer than that to refill (`TokenBucket.ExpiryInvisible`); each lapse gives
  away at most one more burst (`TokenBucket.IntervalBoundWithLapses`).
- `LocalStore::update` is called atomic but is a read and up to two writes;
  concurrent checks on one key are bounded by the tokens there only if there are no
  more checks than whole tokens, or no whole token at all
  (`InterleavedChecks.TokensBoundExactly`, `InterleavedChecks.BurstBoundsExactly`,
  shown by `InterleavedChecks.AllAdmittedTogether`).
- `SlidingWindow::new(rps, _)` divides the window by `rps` as well as setting
  the limit to it, so only `rps <= 1` is held to `rps` requests per second
  (`SlidingWindow.PerSecondExactly`).
- The limiters used when Redis is unreachable are described as having the same
  configuration, and almost never do (`RedisTokenBucket.FallbackAgreesExactly`,
  `RedisSlidingWindow.FallbackAgreesExactly`).
- A chunk that completes no payload ends the whole event stream
  (`SseStream.ReceivesAllExactly`, shown by `SseStream.FirstByteAloneLosesAll`).
- A blank CR LF line after a line ended by a bare LF does not close an event, and a
  CR alone ends no line, as both do in section 9.2 of the WHATWG HTML Standard. For
  every text, the payloads are the standard's exactly if in each event the data
  lines have no CR within, no piece of another line is a data line, and no blank
  line or piece parts its data, and if after the last event no blank line or piece
  follows data (`SseAgreement.PayloadsAreStandard`, shown by
  `SseDifferences.MixedBlankMerges` and `SseDifferences.LoneCrsMerge`).
- Data fields are trimmed, where the standard drops one space
  (`SseStandard.FieldsAlikeExactly`).
- The half-open state is described as letting one probe through and lets every
  call through that reads the state before a completion; just one, exactly when no
  second call does (`Breaker.SingleProbeExactly`, shown by
  `Breaker.EveryProbeAdmitted`).
- Non-ASCII configuration text is copied byte by byte
  (`Placeholders.ExpandsVerbatimExactly`).
- Checked routes can only be exact ones, so prefix and regular-expression
  routes never reach the table (`Routing.ValidPathsAreExact`).
- The handler passes on neither headers nor query, so a route with a condition on
  either never answers (`Routing.BareMatchesExactly`).

## Model

| member | source | states |
|---|---|---|
| LocalStore.LocalStore.Get | src/core/ratelimit/local_store.rs:43-45 | a read sees the entry unless its time to live is over |
| LocalStore.LocalStore.GetOrInsert | src/core/ratelimit/local_store.rs:53-59 | the live value, or the initial one, which is then written; nothing else changes |
| LocalStore.LocalStore.Update | src/core/ratelimit/local_store.rs:61-68 | the closure of the live or initial value, written with the current time |
| LocalStore.KeysAreIsolated | src/core/ratelimit/token_bucket.rs:85-91 | what the store holds for a key after any run on many keys is what that key's own requests would have left |
| LocalStore.AnswersAreIsolated | src/core/ratelimit/token_bucket.rs:85-91 | every request is answered as if its key were alone in the store |
| TokenBucket.TokenBucket.Check | src/core/ratelimit/token_bucket.rs:38-62 | a check answers and rewrites its key's entry by the step function the run theorems are about, and touches no other key |
| TokenBucket.LevelIsTightestBudget | src/core/ratelimit/token_bucket.rs:46-57 | the token level at a check is the minimum, over all earlier checks, of burst plus refill minus admissions since |
| TokenBucket.AdmitsExactly | src/core/ratelimit/token_bucket.rs:38-62 | a check is admitted if and only if, counted from every earlier check, admissions including it stay within burst + rate * elapsed |
| TokenBucket.IntervalBound | src/core/ratelimit/token_bucket.rs:38-62 | any interval admits at most burst + rate * length |
| TokenBucket.StoredTokensInRange | src/core/ratelimit/token_bucket.rs:46-57 | on every run, expiry included, the stored tokens lie between 0 and burst |
| TokenBucket.StoreIsIdeal | src/core/ratelimit/token_bucket.rs:26-62 | when burst <= ttl * rate, the stored and expiring bucket decides every check as the exact one |
| TokenBucket.ExpiryInvisible | src/core/ratelimit/token_bucket.rs:26-33 | expiry changes no decision of any run if and only if burst <= ttl * rate |
| TokenBucket.IntervalBoundWithLapses | src/core/ratelimit/token_bucket.rs:26-62 | on every run and for every time to live, the stored bucket admits over any interval at most one burst, one more for each gap as long as the time to live, and rate * length |
| InterleavedChecks.SerialIsCheck | src/core/ratelimit/local_store.rs:53-68 | a check whose store accesses are not interrupted is exactly one step of the limiter |
| InterleavedChecks.TokensBoundExactly | src/core/ratelimit/local_store.rs:53-68 | whatever the key's entry, every interleaving of n checks at one instant admits at most as many as there are whole tokens after the refill if and only if n is no more than that or there is no whole token |
| InterleavedChecks.BurstBoundsExactly | src/core/ratelimit/local_store.rs:53-68 | every interleaving of n checks on a fresh key at one instant admits at most the burst if and only if n <= burst or burst is 0 |
| InterleavedChecks.AllAdmittedTogether | src/core/ratelimit/local_store.rs:53-68 | whenever one whole token is there, some interleaving admits any number of clients at one instant |
| RedisTokenBucket.RedisServer.EvalTokenBucket | src/core/ratelimit/redis_store.rs:38-65 | at any rate, the script's reply and the hash it leaves for its key; other keys unchanged |
| RedisTokenBucket.KeyLives | src/core/ratelimit/redis_store.rs:60-61 | after an admission the key can be seen exactly for twice the whole seconds that a refill from nothing takes |
| RedisTokenBucket.RequestsAdd | src/core/ratelimit/redis_store.rs:58-65 | asking for two amounts one after the other at one instant is asking for their sum |
| RedisTokenBucket.ClockBack | src/core/ratelimit/redis_store.rs:54-55 | a clock that has stepped back refills nothing and takes nothing away |
| RedisTokenBucket.RedisIsIdeal | src/core/ratelimit/redis_store.rs:38-65 | on every run the script decides as the exact bucket, though it writes nothing on a denial and its key expires |
| RedisTokenBucket.RedisAgreesWithLocal | src/core/ratelimit/redis_store.rs:38-65 | script and local limiter of equal rate and capacity agree on every run if and only if capacity <= 600 * rate |
| RedisTokenBucket.FallbackAgreesExactly | src/core/ratelimit/redis_store.rs:126-135 | the fallback bucket agrees with the script on every run if and only if rate equals capacity or capacity is 0 |
| RedisSlidingWindow.RedisServer.EvalSlidingWindow | src/core/ratelimit/redis_store.rs:68-86 | the script's reply and the score set it leaves for its key; other keys unchanged |
| RedisSlidingWindow.SetLives | src/core/ratelimit/redis_store.rs:78-85 | an admission lets the key live exactly two more windows; a denial leaves its expiry alone |
| RedisSlidingWindow.RedisWindowIsExact | src/core/ratelimit/redis_store.rs:68-86 | on every run the script admits exactly when fewer than limit admissions lie in the half-open window, pruning and expiry notwithstanding |
| RedisSlidingWindow.NextAfterBurst | src/core/ratelimit/redis_store.rs:68-86 | after limit admissions at 0 a check at x is admitted if and only if x is at least the window |
| RedisSlidingWindow.FallbackAgreesExactly | src/core/ratelimit/redis_store.rs:138-147 | the fallback window agrees with the script on every run if and only if the limit is 0 |
| SlidingWindow.SlidingWindow.constructor | src/core/ratelimit/sliding_window.rs:19-28 | limit rps, window one second divided by rps in whole nanoseconds, 600 s store |
| SlidingWindow.WidthIsQuotient | src/core/ratelimit/sliding_window.rs:22-24 | the window is the most whole nanoseconds that go rps times into a second |
| SlidingWindow.NextAfterBurst | src/core/ratelimit/sliding_window.rs:19-59 | the configured limiter, after rps checks at 0, admits one at x if and only if x is more than that many nanoseconds |
| SlidingWindow.SlidingWindow.PopStale | src/core/ratelimit/sliding_window.rs:41-49 | the pruning loop drops exactly the times at the front that are older than the window |
| SlidingWindow.SlidingWindow.Check | src/core/ratelimit/sliding_window.rs:33-59 | a check answers and rewrites its key's deque by the step function the run theorems are about |
| SlidingWindow.LocalWindowIsExact | src/core/ratelimit/sliding_window.rs:19-59 | on every run a check is admitted if and only if fewer than rps admissions of the whole history lie in the closed window; the store's expiry never matters |
| SlidingWindow.DequeIsRecentHistory | src/core/ratelimit/sliding_window.rs:38-52 | the pruned deque is at all times exactly the part of the full history still in the window |
| SlidingWindow.AdmissionsSpread | src/core/ratelimit/sliding_window.rs:33-59 | any limit + 1 consecutive admissions span more than the window |
| SlidingWindow.PerSecondExactly | src/core/ratelimit/sliding_window.rs:19-28 | no rps + 1 admissions ever fall within one second if and only if rps <= 1 |
| SseStream.FindSseEventEnd | src/service/handler.rs:448-465 | the scanning loop returns the first event end |
| SseFraming.EventEndIsFirst | src/service/handler.rs:448-465 | the event end is the least position with LF LF or CR LF CR LF; none if there is no such position |
| SseFraming.DrainTakes | src/service/handler.rs:343-344 | an event is what comes up to the event end and two bytes of it, and draining goes on behind them |
| SseFraming.EventEndStable | src/service/handler.rs:343-344 | bytes appended to the buffer never move an event end already found |
| SseFraming.DrainMore | src/service/handler.rs:340-351 | draining, receiving more and draining again is draining once at the end |
| SseFraming.ChunkBoundariesDoNotMatter | src/service/handler.rs:334-351 | events and leftover depend only on the concatenation of the chunks |
| SseFraming.DrainConserves | src/service/handler.rs:343-344 | events and leftover concatenate back to the stream |
| SseFraming.DrainUtf8 | src/service/handler.rs:343-345 | on the bytes of a text, events are the bytes of the text's events: no event ends inside a character |
| Text.Utf8CharShape | src/service/handler.rs:345 | UTF-8 takes as few bytes as the code point needs, the first telling how many |
| Text.Utf8CharReads | src/service/handler.rs:345 | the bytes of a character spell its code point |
| SseStream.ParseSseData | src/service/handler.rs:468-489 | the parsing loop joins the trimmed data of all data lines, or returns nothing when there is none |
| SseLines.LinesAppend | src/service/handler.rs:471 | a line ends with LF or CR LF, neither of which belongs to it |
| SseLines.LinesLast | src/service/handler.rs:471 | text behind the last LF is a line too |
| Text.WhitespaceTable | src/service/handler.rs:472 | white space is the 25 code points of the Unicode property White_Space |
| Text.TrimTakesOff | src/service/handler.rs:472-478 | trimming takes off exactly the white space at both ends |
| SsePrinting.DataLineHolds | src/service/handler.rs:472-478 | a data line may be indented and its value set off and followed by any white space, none of which is part of the data |
| SseStream.DrainEvents | src/service/handler.rs:343-351 | the drain loop leaves what draining leaves and yields the payloads of the drained events |
| SseStream.SseScanner.Feed | src/service/handler.rs:336-363 | one scan step: new buffer and items; no items ends the stream; an error is passed on |
| SseLines.PayloadsByLines | src/service/handler.rs:343-351 | for every text, framing and parsing give what a line-by-line reading gives, where a blank line dispatches the data gathered so far |
| SseAgreement.PayloadsAreStandard | src/service/handler.rs:448-489 | for every text, the payloads are those of the lines and blank lines of section 9.2 of the WHATWG HTML Standard if and only if in every event all lines are clean and no blank piece parts its data, and no blank piece follows data after the last event; there are never more payloads, and fewer if all lines are clean and the condition fails |
| SsePieces.CleanExactly | src/service/handler.rs:471-480 | the data of a line is the data of the lines that its lone CRs make of it if and only if the line is clean: a data line has no CR within, and another line has no piece with data |
| SsePieces.StandardLinesArePieces | src/service/handler.rs:471 | the lines of that section are the handler's lines, cut at their lone CRs |
| SseAgreement.OnlyLosesPayloads | src/service/handler.rs:448-489 | a text in which every CR precedes an LF is read like that or loses payloads |
| SseStandard.FieldsAlikeExactly | src/service/handler.rs:471-480 | a line's data is read as in that section if and only if a data field starts the line, has its colon, and its value has no surrounding whitespace but one space after the colon |
| SseAgreement.PlainTextIsStandard | src/service/handler.rs:448-489 | for texts whose lines are all of that kind the same condition decides agreement with the whole of the section's reading |
| SseStandard.StandardReadsPrint | src/service/handler.rs:401-402 | a client that follows the section reads any printed payloads without CR and LF as they were |
| SseDifferences.MixedBlankMerges | src/service/handler.rs:448-465 | a text with a blank CR LF line after a bare LF: the standard sees two events, the handler one |
| SseDifferences.LoneCrsMerge | src/service/handler.rs:448-465 | a text with lines ended by CR alone: the standard sees two events, the handler one |
| SseLineEndings.LineEndingsDoNotMatter | src/service/handler.rs:343-351 | writing CR LF for every LF of a text without CR leaves its payloads unchanged |
| SseStream.TextInAnyChunks | src/service/handler.rs:334-351 | the bytes of a text, cut anywhere, yield the payloads of its lines |
| SseStream.PrintParseRoundTrip | src/service/handler.rs:401-402 | printing payloads without LF and without white space at their ends, cutting the bytes anywhere and reading them gives back the list |
| SsePrinting.VisibleIsPrintable | src/service/handler.rs:401-402 | every payload without LF that begins and ends with visible ASCII, as JSON text does, makes that round trip |
| SsePrinting.DoneIsPrinted | src/service/handler.rs:374 | the end mark is written as any payload is |
| SseStream.ReceivesAllExactly | src/service/handler.rs:353-362 | the client receives what the chunks yield up to the first that adds no payload to the stream or fails; that is everything if and only if no later chunk adds a payload or fails |
| SseStream.ReceivesText | src/service/handler.rs:334-366 | the client receives the payloads of the whole text in order if and only if no chunk adds one after a chunk that added none |
| SseStream.FirstByteAloneLosesAll | src/service/handler.rs:353-354 | any stream is lost entirely if its first byte arrives alone, whatever chunks follow |
| ConsistentHash.Ring.constructor | src/core/util/consistent_hash.rs:24-36 | the nested loops build the ring in which later placements overwrite earlier ones |
| ConsistentHash.LastPlacementOwns | src/core/util/consistent_hash.rs:24-36 | the ring has exactly the points where some virtual node is placed, and a point belongs to the last listed bucket with a node there |
| ConsistentHash.LookupIsSuccessor | src/core/util/consistent_hash.rs:39-50 | a hash is served by the owner of the first point at or after it |
| ConsistentHash.LookupWrapsAround | src/core/util/consistent_hash.rs:39-50 | past the last point it is served by the owner of the least one |
| ConsistentHash.LookupIsListed | src/core/util/consistent_hash.rs:39-50 | a lookup finds a listed bucket, and nothing only if there are no buckets or no virtual nodes |
| ConsistentHash.MinimalDisruption | src/core/util/consistent_hash.rs:24-50 | inserting a bucket anywhere in the list leaves each key where it was or moves it to that bucket, collisions included |
| ConsistentHash.HashKey | src/core/util/consistent_hash.rs:57-64 | the key hash is the little-endian number of the first eight digest bytes and fits 64 bits |
| ConsistentHash.LittleEndianAppend | src/core/util/consistent_hash.rs:57-64 | each further byte of a little-endian number counts 256 times the one before |
| ConsistentHash.LittleEndianInjective | src/core/util/consistent_hash.rs:57-64 | that number determines the eight bytes |
| Base64.Base64Decode | src/service/config_center/consul.rs:161-188 | the accumulator loop computes the whole bytes of the number the digits spell, or reports the first character that is no digit |
| Base64.TableCode | src/service/config_center/consul.rs:162-163 | the table is that of section 4 of RFC 4648, by character code |
| Base64.TakesInDigit | src/service/config_center/consul.rs:178-184 | neither the 32-bit shift nor the cast to a byte loses a bit, and the rest stays below 2^bits with bits < 8 |
| Base64.AcceptsExactly | src/service/config_center/consul.rs:161-188 | exactly strings of table characters before trailing padding are accepted, and n of them give floor(6n/8) bytes |
| Base64.PaddingIsTrimmed | src/service/config_center/consul.rs:165 | any number of padding characters at the end is taken off, and nothing else |
| Base64.RejectsFirst | src/service/config_center/consul.rs:171-176 | the error names the first character that is not in the table |
| Base64.EncodeDecodeRoundTrip | src/service/config_center/consul.rs:161-188 | decoding the encoding of section 4 of RFC 4648 of any bytes returns them |
| Breaker.Breaker.OnSuccess | src/core/breaker/breaker.rs:42-52 | closes, clears the count and the timer |
| Breaker.Breaker.OnFailure | src/core/breaker/breaker.rs:54-65 | counts, and opens with a fresh timer from the threshold on |
| Breaker.Breaker.TryHalfOpen | src/core/breaker/breaker.rs:67-77 | open becomes half-open once the open duration has passed, and nothing else changes |
| Breaker.Breaker.Call | src/core/breaker/breaker.rs:80-101 | a call that overlaps no other is rejected while open, and otherwise records its outcome |
| Breaker.CallIsEvents | src/core/breaker/breaker.rs:80-101 | after any history, a call that overlaps no other leaves the breaker as its events do: it is rejected if and only if its read does not let it through, and otherwise records its outcome |
| Breaker.LoneRunIsRun | src/core/breaker/breaker.rs:42-101 | a run of such calls is a run of events, so count, state and timer follow its history |
| Breaker.FailingCallsOpen | src/core/breaker/breaker.rs:54-101 | failing calls one after the other are all let through up to the threshold, and the one that reaches it opens the breaker with its end as the timer |
| Breaker.HistoryDetermines | src/core/breaker/breaker.rs:42-77 | in every interleaving: the count is the failures since the last success; closed, and no timer, if and only if below the threshold; the timer is the latest failure; half-open if and only if a probe has come due since |
| Breaker.AdmitsExactly | src/core/breaker/breaker.rs:80-89 | in every interleaving a call is let through if and only if, when it reads the state, the failures since the last success are below the threshold or an attempt since the latest failure came late enough |
| Breaker.NoneAdmittedWhileOpen | src/core/breaker/breaker.rs:80-89 | after opening at T no state read admits a call before T + open duration unless a call succeeds in between |
| Breaker.SuccessWasAdmittedEarlier | src/core/breaker/breaker.rs:80-101 | the first such success belongs to a call admitted before the breaker opened |
| Breaker.ProbesAdmitted | src/core/breaker/breaker.rs:67-89 | between an opening and the next completion, the calls let through are exactly as many as read the state after the first late enough attempt |
| Breaker.SingleProbeExactly | src/core/breaker/state.rs:9-10 | so at most one is let through if and only if at most one reads after that attempt |
| Breaker.EveryProbeAdmitted | src/core/breaker/state.rs:9-10 | once the open duration has passed, any number of overlapping calls is admitted until one completes |
| Breaker.AloneRejected | src/core/breaker/breaker.rs:80-101 | non-overlapping calls before T + open duration are all rejected and leave the breaker as it was |
| Breaker.OneProbeDecides | src/core/breaker/breaker.rs:80-101 | between non-overlapping calls an open breaker always has a timer; a call before it runs out changes nothing, and the first call after that decides alone: success closes with count 0, failure opens with a fresh timer |
| PathNormalize.NormalizeByStack | src/core/util/path.rs:18-43 | the loop over segments renders the resolved stack |
| PathNormalize.NormalizeIdempotent | src/core/util/path.rs:18-43 | normalising twice is normalising once |
| PathNormalize.NormalizedSegments | src/core/util/path.rs:18-43 | no segment of the result is empty, `.` or `..` |
| PathNormalize.NormalizeFirst | src/core/util/path.rs:18-43 | normalising the first part beforehand changes nothing, if and only if that part is empty, absolute, not resolved to the root, or the other part is |
| DotSegments.RemoveDotSegmentsIsNormalize | src/core/util/path.rs:18-43 | on absolute paths without empty inner segments, section 5.2.4 of RFC 3986 gives the same path plus a slash after a last segment that is empty, `.` or `..` |
| DotSegments.AgreeExactly | src/core/util/path.rs:18-43 | the two agree there if and only if the last segment is an ordinary name or the path resolves to the root |
| BodyRules.Transformer.ApplyBodyRule | src/core/proxy/transformer.rs:132-157 | walking the cursor and editing in place has the effect of the rule on the whole document |
| BodyRules.Transformer.ApplyBody | src/core/proxy/transformer.rs:112-117 | the rules take effect in order |
| BodyRules.FieldNamesPath | src/core/proxy/transformer.rs:133 | a field's text is its segments with a dot between any two |
| BodyRules.DottedRule | src/core/proxy/transformer.rs:132-157 | frame and effect of a rule in terms of its dotted field |
| BodyRules.LastRuleWins | src/core/proxy/transformer.rs:112-117 | the last of several rules has its effect on what the others left |
| BodyRules.RuleFrame | src/core/proxy/transformer.rs:132-157 | every path incomparable with the rule's path reads as before |
| BodyRules.RuleEffect | src/core/proxy/transformer.rs:132-157 | at and below its path a rule puts its value or nothing; a path that reaches no object leaves the document alone |
| BodyRules.RuleIdempotent | src/core/proxy/transformer.rs:132-157 | applying a rule twice is applying it once |
| BodyRules.CommuteExactly | src/core/proxy/transformer.rs:112-117 | exactly which pairs of rules can be swapped on every document |
| BodyRules.OrderDoesNotMatter | src/core/proxy/transformer.rs:112-117 | any reordering of rules with pairwise incomparable paths gives the same document |
| Routing.CompileAll | src/core/routing/matcher.rs:157-164 | every route's matcher with its index, or the error of the first route that does not compile |
| Routing.SortByClass | src/core/routing/table.rs:26-31 | the same entries, by class and within a class in registration order |
| Routing.NewTable | src/core/routing/table.rs:22-36 | a table is built if and only if every route compiles, and it holds each route once in table order |
| Routing.KindsInOrder | src/core/routing/table.rs:26-31 | exact routes come before prefixes, and prefixes before regular expressions |
| Routing.TildeIsRegex | src/core/routing/matcher.rs:25-33 | a tilde introduces a regular expression, trimmed, or an error if it does not compile |
| Routing.SlashedIsPrefix | src/core/routing/matcher.rs:40-44 | slashes at the end of an absolute path make it a prefix without them; the root alone is exact |
| Routing.RelativeIsRefused | src/core/routing/matcher.rs:35-38 | any other path that does not start at the root is an error |
| Routing.ConditionsAllMet | src/core/routing/matcher.rs:97-135 | a request meets a rule if and only if it meets it without conditions, has a header for each header condition, its name in any ASCII case, and has each query condition to the letter |
| Routing.MatchRequest | src/core/routing/matcher.rs:139-154 | the matching route least by class, then by registration; none if and only if no route matches |
| Routing.Validate | src/service/config_loader.rs:142-189 | succeeds if and only if every check holds, and otherwise names the first thing wrong: base URLs in order, then each route's name, method and path, then the rate limit, then the keys |
| Routing.MethodsAccepted | src/service/config_loader.rs:208-213 | the methods that are accepted |
| Routing.ValidPathsAreExact | src/service/config_loader.rs:215-217 | a path passes the check if and only if it is not `/` and compiles to an exact matcher |
| Routing.RegistrationOrderDecides | src/core/routing/table.rs:22-36 | in a checked configuration every route compiles and has the first class |
| Routing.BareMatchesExactly | src/core/routing/matcher.rs:97-135 | a request without headers and query matches if and only if method and path do and the route has no condition on either |
| Routing.ResolveRoute | src/service/handler.rs:166-177 | in a checked configuration the answer is the first registered route without conditions whose method fits and whose normalised path is the request's path |
| Routing.MatchValidated | src/core/routing/table.rs:53-61 | in a checked configuration the answer is the first registered route that matches |
| Routing.PrefixMatchesSegments | src/core/routing/matcher.rs:76-84 | a prefix matcher accepts a path if and only if its segments are a prefix of the path's |
| Canary.SelectCanaryTarget | src/service/handler.rs:220-236 | the loop selects by cumulative weight in wrapping 32-bit arithmetic, with both error cases |
| Canary.SelectFrom | src/service/handler.rs:226-234 | a target of weight zero is never selected |
| Canary.SelectsTarget | src/service/handler.rs:226-234 | without overflow a target is selected by exactly the rolls from the sum of the weights before it up to the sum with its own |
| Canary.SelectErrors | src/service/handler.rs:220-236 | the two errors: the 32-bit total is zero; without overflow, the roll is the total or more |
| Canary.EveryRollSelects | src/service/handler.rs:220-236 | without overflow every roll below the total selects a target |
| Canary.WeightsAreExact | src/service/handler.rs:220-236 | each target is selected by exactly as many rolls as its weight if and only if the weights add up to less than 2^32 |
| Placeholders.ExpandPlaceholders | src/service/config_loader.rs:119-139 | the scanning loop computes the expansion or names the first unset variable |
| Placeholders.ExpandIsMeaning | src/service/config_loader.rs:119-139 | a printed template expands to its parts in order, values are never expanded again, and an unclosed tail is copied |
| Placeholders.ParsePrints | src/service/config_loader.rs:119-139 | every text is a printed template up to an unclosed tail |
| Placeholders.UnclosedIsCopied | src/service/config_loader.rs:124-136 | without a closing brace nothing is expanded |
| Placeholders.ExpandsVerbatimExactly | src/service/config_loader.rs:119-139 | for every text, read as a printed template and an unclosed tail: expansion fails if and only if some variable is unset; otherwise literals and tail come out verbatim if and only if they are ASCII |

## Left out

- Servers, HTTP clients, WebSocket forwarding, Redis, ETCD and Consul transport, file watching, YAML parsing, metrics and plugin loading: input and output around libraries not modelled here.
- Floating-point rounding in the limiters, clocks that run backwards, and different clocks on different hosts.
- The capacity of the local store (10,000 keys) and its eviction, and `LocalStore::invalidate`: what is evicted is not specified.
- Collisions of Redis sorted-set members: the random suffix is taken to keep them distinct.
- RedisTokenBucket.RedisIsIdeal: for a positive rate; with any other the script's EXPIRE gets an argument that is not a positive number of seconds, and what Redis then makes of the key is a parameter.
- A byte order mark in front of an event stream.
- Overflow of the breaker's 32-bit failure count.
- The JSON transformation of each payload, the `[DONE]` mark and a payload whose transformation fails: one branch each, per provider.
- `Router::replace` and hot reload, `src/core/proxy/stream.rs`, header, cookie and host conditions that the code does not evaluate.
- SSRF checks and the parsing of allow-listed hosts, authentication, constant-time comparison.
- BodyRules.Transformer.ApplyBodyRule: the `&mut` cursor is the path from the root of a document value, so aliasing of heap nodes does not arise in the model.
- RedisSlidingWindow.Script: the sorted set is a sequence of scores in order of insertion, which is their order on nondecreasing times.
- ConsistentHash.Lookup: the ordered map is a map with the clockwise point specified rather than searched for.
- Routing.SortByClass: the library's stable sort is an insertion sort on a sequence.
