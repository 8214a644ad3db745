# event-tracking-service, modelled in Dafny

This project models the core of the event tracking service. The service takes
batches of `timestamp,x,y` lines and keeps a sliding window of the last sixty
seconds of accepted events. It reports the count, sums and averages of the
events in that window.

The model covers three source files:

- `EventServiceImpl`:
  - the time-ordered deque of accepted events with its running totals, kept
    as a class (`EventService.EventServiceImpl`) whose fields the methods
    update in place;
  - `addEvent`, with its backward scan, and `cleanExpiredEvents`, each as a
    `while` loop;
  - `getStats`;
  - the batch loop of `validateAndProcessEvents`;
  - the per-line decision of `processLine`, `parseEvent`, `validateEvent` and
    `formatValidationErrors`, as pure functions.
- `EventDto`: the Bean Validation constraints on the event's fields, as
  explicit checks that list every broken constraint.
- `EventController.processEventsPayload`: the choice of status from the
  result map.

Modules:

- `Wrappers`: `Option` and `Result`.
- `JavaText`: `String.trim()`, and `String.split` with a one-character
  separator, including how it drops trailing empty strings. Also
  `Collectors.joining`.
- `Numbers`:
  - `Long.parseLong` and `Integer.parseInt`, with their ranges and an optional
    sign;
  - a plain decimal subset of `Double.parseDouble`, read into an exact decimal
    `Decimal(unscaled, scale)`;
  - the measures `@Digits` applies to that decimal.
- `EventDto`:
  - the event record;
  - its constraints and their messages;
  - the violations an event produces, in declaration order.
- `Window`: the deque as a value, namely sortedness, the insertion point that
  `addEvent` finds, insertion, eviction and the totals.
- `Processing`: parsing a line, validating an event, rendering the outcome, and
  the whole batch as a function of its lines and of the clock.
- `EventService`: the `EventServiceImpl` class with `Valid()`. `Valid()` says
  the deque is sorted, `eventCount` is its length, `sumX` is the sum of its
  `x` and `sumY` is the sum of its `y`. Every method keeps `Valid()`.
- `EventController`: the status rule, and the payload handler that returns the
  service's map unchanged together with its status.

Where the code reads the wall clock, the model takes it as an argument:

- `CleanExpiredEvents(now)` and `GetStats(now)` take `now`;
- `ProcessLine(line, now)` takes `now`;
- the batch takes `clock`, and line `i` (counting from 1) is judged at
  `clock(i)`.

Each locked section is one sequential step.

Three behaviours of the code differ from what the service is meant to do:

- **Trailing empty lines.** Every line of a payload is meant to get an entry.
  The code splits with `String.split`, which drops trailing empty strings, so
  trailing empty lines get no entry. The model follows the code. The same rule
  applies when a line is split on `,`.
- **Negative timestamps.** A timestamp is meant to be a non-negative integer.
  `Long.parseLong` accepts a sign, so a negative timestamp is parsed. It is
  then rejected as too old, or by `@Min(0)`. The model follows the code.
- **Every violated field.** Every violated field is meant to be reported. The
  code as written throws `IllegalStateException` for an `x` that breaks two
  constraints. The exception ends the whole batch with no map, and the events
  accepted on earlier lines stay in the deque. `ProcessLine`,
  `ValidateAndProcessEvents` and `ProcessEventsPayload` use the corrected
  validation instead: such a line is rejected with one entry per field, and the
  batch goes on. The code as written is modelled separately, by
  `Processing.JudgeAsWritten` for one line and `Processing.BatchAsWritten` for
  a batch. `Processing.BatchAsWrittenStops` proves that such a batch stops at
  the first such line. See Findings.

## Model

Source paths are relative to the repository root.

| member | source | states |
|---|---|---|
| EventService.EventServiceImpl.constructor | src/main/java/com/myproject/eventtrackingservice/service/EventServiceImpl.java:21-26 | A new service has an empty deque, zero totals, and satisfies `Valid()` |
| EventService.EventServiceImpl.AddEvent | src/main/java/com/myproject/eventtrackingservice/service/EventServiceImpl.java:144-172 | The backward scan inserts the event just after the last element whose timestamp is at most its own, or at the front; the deque becomes `Insert(old, e)`; the count grows by one and the sums by the event's `x` and `y`; `Valid()` is kept |
| EventService.EventServiceImpl.CleanExpiredEvents | src/main/java/com/myproject/eventtrackingservice/service/EventServiceImpl.java:63-81 | Popping from the head while older than `now - 60000` leaves `Evict(old, now - 60000)`, and the totals still describe the deque |
| EventService.EventServiceImpl.GetStats | src/main/java/com/myproject/eventtrackingservice/service/EventServiceImpl.java:31-44 | Evicts first, then returns `Render(StatsOf(deque))`. That is `DEFAULT_STATS` when the window is empty, reached without dividing. Otherwise it is the `%d,%.10f,%.10f,%d,%.3f` text of the count, the sums and the averages taken from the running totals |
| EventService.EventServiceImpl.ProcessLine | src/main/java/com/myproject/eventtrackingservice/service/EventServiceImpl.java:83-100 | Returns the message of `Judge(line, now)` and inserts the parsed event exactly when the line is accepted; in every other case the deque is untouched |
| EventService.EventServiceImpl.ValidateAndProcessEvents | src/main/java/com/myproject/eventtrackingservice/service/EventServiceImpl.java:47-61 | The result is `ResultMap` of the `\n`-split payload, i.e. one message per line under its 1-based number; the deque ends as the old deque with the accepted events inserted in line order; `Valid()` is kept |
| EventService.StatsOf | src/main/java/com/myproject/eventtrackingservice/service/EventServiceImpl.java:36-43 | The default figures exactly for an empty window; otherwise the count is the length, the sums are those of the events, and each average times the count is its sum |
| EventService.StatsOfWindow | src/main/java/com/myproject/eventtrackingservice/service/EventServiceImpl.java:34-43 | On a sorted deque, the figures after eviction are those of exactly the events inside the window; they are the default exactly when every event is older than the cutoff |
| EventService.RoundHalfUp | src/main/java/com/myproject/eventtrackingservice/service/EventServiceImpl.java:43 | Rounds to the nearest whole number, a half going away from zero, as `%.<n>f` does: for `r >= 0` the result `n` has `n - 1/2 <= r < n + 1/2`, and for `r < 0` it has `n - 1/2 < r <= n + 1/2` |
| EventService.RenderFields | src/main/java/com/myproject/eventtrackingservice/service/EventServiceImpl.java:43 | The text of a snapshot splits on `,` into exactly its five figures: count and sum of `y` as integers, the sum and mean of `x` with ten fraction digits, and the mean of `y` with three |
| EventService.ZeroFixedPoint | src/main/java/com/myproject/eventtrackingservice/service/EventServiceImpl.java:43 | Zero written with `n` fraction digits is `0.` followed by `n` zeros |
| EventService.DefaultStatsIsZeroFigures | src/main/java/com/myproject/eventtrackingservice/service/EventServiceImpl.java:16 | `DEFAULT_STATS` is exactly what the format writes for a count, sums and averages that are all zero |
| Window.SumsAppend | src/main/java/com/myproject/eventtrackingservice/service/EventServiceImpl.java:24-26 | The sums of `x` and of `y` over a concatenation add up |
| Window.InsertionPoint | src/main/java/com/myproject/eventtrackingservice/service/EventServiceImpl.java:151-163 | The index where `addEvent` inserts: every later element is strictly newer, and the element before it (if any) is not newer |
| Window.InsertionPointUnique | src/main/java/com/myproject/eventtrackingservice/service/EventServiceImpl.java:151-163 | Those two conditions determine the insertion index uniquely |
| Window.InsertPlacement | src/main/java/com/myproject/eventtrackingservice/service/EventServiceImpl.java:151-163 | In a sorted deque, `Insert` puts the new event after every element with timestamp at most its own and before every newer one, so ties keep arrival order |
| Window.InsertKeepsOrder | src/main/java/com/myproject/eventtrackingservice/service/EventServiceImpl.java:149-163 | Removing the new event from the result gives back the old deque: one element is added and the others keep their relative order |
| Window.InsertIndices | src/main/java/com/myproject/eventtrackingservice/service/EventServiceImpl.java:149-163 | The elements before the insertion point are unchanged, those after it shift by one, and the event sits at the insertion point |
| Window.InsertSorted | src/main/java/com/myproject/eventtrackingservice/service/EventServiceImpl.java:149-163 | Insertion keeps a sorted deque sorted |
| Window.InsertContents | src/main/java/com/myproject/eventtrackingservice/service/EventServiceImpl.java:156-162 | `Insert` adds exactly the one event: the multiset grows by it and the length by one |
| Window.InsertTotals | src/main/java/com/myproject/eventtrackingservice/service/EventServiceImpl.java:165-167 | The sums over the new deque are the old sums plus the event's `x` and `y` |
| Window.InsertCommutes | src/main/java/com/myproject/eventtrackingservice/service/EventServiceImpl.java:149-163 | Two events with different timestamps give the same deque whichever arrives first |
| Window.Evict | src/main/java/com/myproject/eventtrackingservice/service/EventServiceImpl.java:70-75 | Eviction removes a prefix, every removed event is older than the cutoff, and the remaining head (if any) is not |
| Window.EvictIdempotent | src/main/java/com/myproject/eventtrackingservice/service/EventServiceImpl.java:70-75 | A second eviction with the same cutoff changes nothing |
| Window.EvictSorted | src/main/java/com/myproject/eventtrackingservice/service/EventServiceImpl.java:70-75 | Eviction keeps a sorted deque sorted, and afterwards every event is inside the window |
| Window.EvictTotals | src/main/java/com/myproject/eventtrackingservice/service/EventServiceImpl.java:71-74 | The sums after eviction are the old sums minus those of the removed prefix |
| Window.EvictIsFilter | src/main/java/com/myproject/eventtrackingservice/service/EventServiceImpl.java:70-75 | On a sorted deque, eviction keeps exactly the events whose timestamp is inside the window |
| EventDto.PathsDistinct | src/main/java/com/myproject/eventtrackingservice/EventDto.java:15-24 | The three property paths are pairwise different, so keying by path is keying by property |
| EventDto.FieldViolations | src/main/java/com/myproject/eventtrackingservice/EventDto.java:13-24 | Each field's violations concern that field only. `timestamp` has one exactly when it is negative. `x` has none exactly when it lies in [0, 1] with at most 1 integer and 10 fraction digits, and has two exactly when it is out of range and has too many digits. `y` has one exactly when it is outside [1073741823, 2147483647] |
| EventDto.ViolationsEmptyIffValid | src/main/java/com/myproject/eventtrackingservice/EventDto.java:13-24 | `Violations` reports nothing exactly for an event that meets every constraint, that is, exactly when `ValidEvent` holds |
| EventDto.ViolationsByField | src/main/java/com/myproject/eventtrackingservice/EventDto.java:13-24 | `Violations` reports a field exactly when one of its own constraints fails |
| EventDto.GroupViolationsByField | src/main/java/com/myproject/eventtrackingservice/service/EventServiceImpl.java:134-136 | Grouping by property path gives each field exactly its own violations |
| EventDto.XRangeExact | src/main/java/com/myproject/eventtrackingservice/EventDto.java:17-18 | `x` is in [0, 1] exactly when its unscaled digits lie between 0 and `10^scale`; `Processing.CounterexampleX` uses it for `12.5` |
| EventDto.XInRangeHasOneIntegerDigit | src/main/java/com/myproject/eventtrackingservice/EventDto.java:17-19 | An `x` in range never breaks the integer-digit bound, so for it `@Digits` reduces to the fraction bound |
| EventDto.TwoViolationsOnX | src/main/java/com/myproject/eventtrackingservice/EventDto.java:13-24 | `timestamp` and `y` never carry two violations; `x` carries two exactly when it is out of range and has too many digits |
| Numbers.ParseInteger | src/main/java/com/myproject/eventtrackingservice/service/EventServiceImpl.java:109-111 | A parsed `long` or `int` always lies in its type's range |
| Numbers.ParseIntegerSigned | src/main/java/com/myproject/eventtrackingservice/service/EventServiceImpl.java:109-111 | The contract of `ParseInteger` in both directions: an optional `+` or `-` followed by digits (leading zeros and `-0` included) reads as the value it spells when that value is in range, and is a format error otherwise, so an out-of-range `y` such as `2147483648` makes the line malformed instead of breaking `@Max` |
| Numbers.IntegerRoundTrip | src/main/java/com/myproject/eventtrackingservice/service/EventServiceImpl.java:109-111 | Every in-range integer is read back from its decimal text |
| Numbers.ParseIntegerRejectsNonDigits | src/main/java/com/myproject/eventtrackingservice/service/EventServiceImpl.java:109-111 | Unsigned text containing a non-digit is a format error |
| Numbers.DecimalRoundTrip | src/main/java/com/myproject/eventtrackingservice/service/EventServiceImpl.java:110 | `ParseDecimal` reads every decimal back exactly from its plain text |
| Numbers.ParsePlainDecimal | src/main/java/com/myproject/eventtrackingservice/service/EventServiceImpl.java:110 | `ParseDecimal` reads an optional `+` or `-` sign, then digits, a point with fraction digits, or both (`7`, `7.`, `-0.25`, `+.5`), as the decimal they spell; the scale is the number of fraction digits |
| Numbers.StripKeepsValue | src/main/java/com/myproject/eventtrackingservice/EventDto.java:19 | Dropping trailing fraction zeros, as `@Digits` does before counting, keeps the value and leaves no trailing zero |
| Numbers.IntegerLengthMeaning | src/main/java/com/myproject/eventtrackingservice/EventDto.java:19 | The integer part has more than one digit exactly when the absolute value is at least 10 |
| JavaText.Trim | src/main/java/com/myproject/eventtrackingservice/service/EventServiceImpl.java:104 | The result neither starts nor ends with a character at or below U+0020, and text that already does not is returned unchanged |
| JavaText.TrimIsSlice | src/main/java/com/myproject/eventtrackingservice/service/EventServiceImpl.java:104 | The trimmed text is a slice of the input, and every dropped character is at or below U+0020 |
| JavaText.TrimIdempotent | src/main/java/com/myproject/eventtrackingservice/service/EventServiceImpl.java:104 | Trimming twice is trimming once |
| JavaText.SplitAllPieces | src/main/java/com/myproject/eventtrackingservice/service/EventServiceImpl.java:52 | No piece contains the separator, and text without it is one piece |
| JavaText.JoinSplitAll | src/main/java/com/myproject/eventtrackingservice/service/EventServiceImpl.java:52 | Joining all the pieces with the separator gives the text back |
| JavaText.JoinSecondChar | src/main/java/com/myproject/eventtrackingservice/service/EventServiceImpl.java:178 | Joining with a two-character separator such as `"; "` is joining with its first character after putting the second in front of every piece but the first |
| JavaText.SplitAllJoin | src/main/java/com/myproject/eventtrackingservice/service/EventServiceImpl.java:52 | Pieces free of the separator come back from splitting their join |
| JavaText.DropTrailingEmptyDrops | src/main/java/com/myproject/eventtrackingservice/service/EventServiceImpl.java:52 | `split` keeps a prefix of the pieces and drops only empty ones |
| JavaText.JavaSplitPieces | src/main/java/com/myproject/eventtrackingservice/service/EventServiceImpl.java:52 | `JavaSplit` (`split`) gives the pieces in order, none containing the separator, with trailing empty pieces removed when the separator occurs |
| JavaText.JavaSplitJoin | src/main/java/com/myproject/eventtrackingservice/service/EventServiceImpl.java:104 | Pieces free of the separator, the last one not empty, are what `JavaSplit` returns for their join |
| Processing.ParseEvent | src/main/java/com/myproject/eventtrackingservice/service/EventServiceImpl.java:102-124 | A line that does not split into exactly three fields is malformed, and a parsed event's timestamp and `y` fit `long` and `int` |
| Processing.ParseEventRoundTrip | src/main/java/com/myproject/eventtrackingservice/service/EventServiceImpl.java:102-124 | The line `timestamp,x,y` of an event whose values fit their types parses back to that event |
| Processing.FormatLineFields | src/main/java/com/myproject/eventtrackingservice/service/EventServiceImpl.java:104 | Trimming and splitting an event's line on `,` gives its three fields |
| Processing.CollectErrorsFields | src/main/java/com/myproject/eventtrackingservice/service/EventServiceImpl.java:134-138 | There is at most one entry per listed field, and each entry is about one of them |
| Processing.CollectErrorsNames | src/main/java/com/myproject/eventtrackingservice/service/EventServiceImpl.java:134-138 | A field has an entry exactly when it is listed and has a violation |
| Processing.CollectErrorsDistinct | src/main/java/com/myproject/eventtrackingservice/service/EventServiceImpl.java:134-138 | Over distinct fields, no two entries share a field, as keys of a map |
| Processing.DuplicateField | src/main/java/com/myproject/eventtrackingservice/service/EventServiceImpl.java:134-138 | Finds a property path with two violations, the case in which `toMap` fails, or confirms that there is none |
| Processing.FieldOrderDistinct | src/main/java/com/myproject/eventtrackingservice/service/EventServiceImpl.java:176-178 | The map's iteration order lists each of the three fields exactly once |
| Processing.ValidateEventNoneIffValid | src/main/java/com/myproject/eventtrackingservice/service/EventServiceImpl.java:126-132 | `ValidateEvent` returns nothing exactly for a valid event |
| Processing.ValidateEventOnePerField | src/main/java/com/myproject/eventtrackingservice/service/EventServiceImpl.java:126-141 | For an invalid event, `ValidateEvent` gives at least one entry, one per violated field and only those |
| Processing.AsWrittenFailsOnlyOnDoubleX | src/main/java/com/myproject/eventtrackingservice/service/EventServiceImpl.java:134-138 | `ValidateEventAsWritten`, the code as written, fails exactly when `x` is out of range and has too many digits; otherwise it agrees with `ValidateEvent` |
| Processing.DuplicateKeyCounterexample | src/main/java/com/myproject/eventtrackingservice/service/EventServiceImpl.java:134-138 | The line `1000,12.5,50` parses, makes the code as written fail on the key `x`, and gets the entries `x` and `y` from the corrected validator |
| Processing.ValidateEventXAndY | src/main/java/com/myproject/eventtrackingservice/service/EventServiceImpl.java:134-138 | An event that breaks `x` and `y` but not `timestamp` gets exactly two entries, `x` then `y` |
| Processing.CollectErrorsInFieldOrder | src/main/java/com/myproject/eventtrackingservice/service/EventServiceImpl.java:176-178 | The entries come in the map's order: `x`, then `y`, then `timestamp` |
| Processing.FormatValidationErrorsStart | src/main/java/com/myproject/eventtrackingservice/service/EventServiceImpl.java:175-179 | The joined text opens with the first entry's property path and a colon |
| Processing.RejectionHasErrors | src/main/java/com/myproject/eventtrackingservice/service/EventServiceImpl.java:92-93 | A rejected line carries at least one error |
| Processing.JudgeCases | src/main/java/com/myproject/eventtrackingservice/service/EventServiceImpl.java:83-124 | For `Judge` (`processLine` without `addEvent`): a line is malformed exactly when it does not parse. It is too old exactly when it parses to an event before the window; this check comes before validation. It is accepted exactly when the event is in the window and valid, and it is otherwise rejected with at least one error |
| Processing.RejectionNotSuccess | src/main/java/com/myproject/eventtrackingservice/service/EventServiceImpl.java:93-96 | A rendered rejection is never the success message |
| Processing.OutcomeMessageSuccess | src/main/java/com/myproject/eventtrackingservice/service/EventServiceImpl.java:85-99 | An outcome's message is the success message exactly when the outcome is an acceptance |
| Processing.SuccessMessageIffAccepted | src/main/java/com/myproject/eventtrackingservice/service/EventServiceImpl.java:85-99 | A line's message is the success message exactly when the line is accepted |
| Processing.Outcomes | src/main/java/com/myproject/eventtrackingservice/service/EventServiceImpl.java:52-58 | A batch has exactly one outcome per line |
| Processing.OutcomesUpToAt | src/main/java/com/myproject/eventtrackingservice/service/EventServiceImpl.java:54-57 | Among the first `n` lines, line `i` is judged on its own at its clock reading, whatever lines follow |
| Processing.OutcomesAt | src/main/java/com/myproject/eventtrackingservice/service/EventServiceImpl.java:54-57 | The outcome of line `i` is that line judged on its own at the clock reading for its number |
| Processing.OutcomesRejectWithErrors | src/main/java/com/myproject/eventtrackingservice/service/EventServiceImpl.java:54-57 | Every rejected line of a batch carries at least one error |
| Processing.ResultsUpToKeys | src/main/java/com/myproject/eventtrackingservice/service/EventServiceImpl.java:54-58 | The result map's keys are exactly `1..n`, one per line |
| Processing.ResultsUpToValue | src/main/java/com/myproject/eventtrackingservice/service/EventServiceImpl.java:56-57 | Key `k` holds the message of line `k` |
| Processing.AcceptedEventsStep | src/main/java/com/myproject/eventtrackingservice/service/EventServiceImpl.java:94-96 | One more line inserts its event exactly when it is accepted |
| Processing.BatchStep | src/main/java/com/myproject/eventtrackingservice/service/EventServiceImpl.java:56-57 | One loop iteration records the new line's message under the next number and applies that line's outcome to the deque |
| Processing.FormatValidationErrorsSplit | src/main/java/com/myproject/eventtrackingservice/service/EventServiceImpl.java:175-179 | For `FormatValidationErrors`: when no detail holds `;`, cutting the text at each `;` gives back the entries in order. The first piece is `path: detail`, and each later piece is the same behind the blank of the `"; "` separator, so the text is the entries joined by `"; "` and nothing else |
| Processing.RejectionMessagePieces | src/main/java/com/myproject/eventtrackingservice/service/EventServiceImpl.java:92-93 | The message of an invalid event, cut at each `;`, gives back one `path: detail` entry per violated field, in map order |
| Processing.BatchLineStep | src/main/java/com/myproject/eventtrackingservice/service/EventServiceImpl.java:54-57 | One pass of the loop, with the line judged at its clock reading, adds that outcome, records its message under the next number, and applies it to the deque |
| Processing.JudgeAsWrittenCases | src/main/java/com/myproject/eventtrackingservice/service/EventServiceImpl.java:83-100 | For `JudgeAsWritten` (`processLine` as written): a line fails exactly when it parses to an event inside the window whose `x` is out of [0, 1] and breaks `@Digits`; every other line gets the outcome `Judge` gives it |
| Processing.JudgedAsWrittenAt | src/main/java/com/myproject/eventtrackingservice/service/EventServiceImpl.java:54-56 | In a batch as written, line `i` is judged on its own at the clock reading for its number |
| Processing.RunAsWrittenStops | src/main/java/com/myproject/eventtrackingservice/service/EventServiceImpl.java:47-61 | The loop as written, over any judged lines, finishes exactly when no line fails, and then gives the corrected map and deque. Otherwise it stops at the first failing line, and the deque holds the events accepted before that line |
| Processing.BatchAsWrittenStops | src/main/java/com/myproject/eventtrackingservice/service/EventServiceImpl.java:47-61 | `BatchAsWritten`, the batch as written, finishes exactly when no line fails as written, with the map and deque of `ResultMap`. Otherwise it stops at the first failing line, with no map, and the events accepted on the lines before it stay inserted |
| Processing.CounterexampleFails | src/main/java/com/myproject/eventtrackingservice/service/EventServiceImpl.java:83-100 | The line `1000,12.5,50`, read up to a minute after its timestamp, fails as written on the key `x` |
| Processing.BatchCounterexample | src/main/java/com/myproject/eventtrackingservice/service/EventServiceImpl.java:47-61 | A one-line batch `1000,12.5,50` stops as written at line 1 on the key `x`, with the deque unchanged |
| Processing.InsertAllKeeps | src/main/java/com/myproject/eventtrackingservice/service/EventServiceImpl.java:149-163 | A batch keeps the deque sorted and adds exactly the accepted events |
| Processing.InsertAllTotals | src/main/java/com/myproject/eventtrackingservice/service/EventServiceImpl.java:165-167 | A batch adds exactly the accepted events' `x` and `y` to the sums and their number to the length |
| EventController.StatusFor | src/main/java/com/myproject/eventtrackingservice/EventController.java:31-45 | Some success and some failure give MULTI_STATUS; failures only, with at least one entry, give BAD_REQUEST; all successes give ACCEPTED, and so does an empty map |
| EventController.ProcessEventsPayload | src/main/java/com/myproject/eventtrackingservice/EventController.java:27-48 | The body is the service's map unchanged, and the status is the one `StatusFor` chooses for it. The service's deque ends as the old deque with the batch's accepted events inserted in line order |
| EventController.BatchStatus | src/main/java/com/myproject/eventtrackingservice/EventController.java:31-45 | Per batch: ACCEPTED exactly when every line is accepted (or there are none); BAD_REQUEST exactly when there are lines and none is accepted; MULTI_STATUS exactly when some are and some are not |
| EventController.OutcomesStatus | src/main/java/com/myproject/eventtrackingservice/EventController.java:31-45 | The same three statements about any sequence of outcomes whose rejections carry errors |
| EventController.LineMessages | src/main/java/com/myproject/eventtrackingservice/EventController.java:31-35 | The map holds a success message exactly when some line was accepted, another message exactly when some line was not, and it is empty exactly when there are no lines |

## Left out

- Locking: the `ReentrantLock` and concurrent callers are not modelled. Each locked section (`addEvent`, `cleanExpiredEvents`) is one sequential step of a class method.
- The wall clock: `System.currentTimeMillis()` is an argument. `now` is given to cleanup and to a single line. `clock(i)` is given to line `i` of a batch.
- EventService.EventServiceImpl.GetStats: the text is formatted from exact reals, rounded half up to 10 and 3 fraction digits. The `double` arithmetic behind `sumX` and the two averages, and its rounding errors, are not modelled.
- Floating point: `x` is an exact decimal and `sumX` an exact real. The rounding of `double` sums and averages is not modelled.
- Numbers.ParseInteger: overflow and integer width are modelled by the range check. Only the ASCII digits `0`-`9` are read. `Long.parseLong` and `Integer.parseInt` use `Character.digit`, which also accepts every other Unicode decimal digit (such as `١`), so such text is a format error in the model but a number in Java. `eventCount` (an `int`) and `sumY` (a `long`) are unbounded in the model, so their wrap-around is not modelled.
- Numbers.ParseIntegerRejectsNonDigits: a character outside `0`-`9` is a non-digit here. For the other Unicode decimal digits, Java reads a number where this lemma states a format error, for the reason given under `Numbers.ParseInteger`.
- Numbers.ParseDecimal: `x` keeps the exact decimal of its text, and the constraints are checked on that decimal. Java checks the nearest `double`. The two can differ for text with more significant digits than a `double` holds. For example, `0.99999999999999999999` is the `double` 1.0 in Java, which passes `@Digits`, while the model sees 20 fraction digits and reports a violation.
- `Double.parseDouble` is modelled only for plain decimals: an optional sign, digits, and at most one point, with blanks around it ignored. Exponents, `NaN`, `Infinity`, hexadecimal forms and type suffixes are read as format errors. A negative zero such as `-0.0` is read as zero, so its sign is lost. The sign could matter to `@Min(0)` comparing a `double`.
- The rejected value in a violation message follows `Double.toString` for plain decimals only. The scientific notation `Double.toString` uses for very large or very small values is not modelled.
- The `HashMap` iteration order of the keys `x`, `y` and `timestamp` is fixed as `FIELD_ORDER`. It is not derived from hash codes.
- `@NotNull` on the primitive `timestamp` can never fail, so it produces no violation.
- EventService.EventServiceImpl.ProcessLine: its contract names the line's outcome through a ghost out-parameter. The outcome is not a value the Java method returns. It uses the corrected validation: where the code as written throws `IllegalStateException` (an `x` out of [0, 1] that also breaks `@Digits`), it rejects the line. The code as written is `Processing.JudgeAsWritten`, characterised by `Processing.JudgeAsWrittenCases`.
- EventService.EventServiceImpl.ValidateAndProcessEvents: it uses the corrected validation, so a line that makes the code as written throw is rejected and the loop goes on. In the code as written the exception ends the batch with no map, and events accepted on earlier lines stay in the deque. That behaviour is `Processing.BatchAsWritten`, proved in `Processing.BatchAsWrittenStops`.
- EventController.ProcessEventsPayload: it builds on the corrected `ValidateAndProcessEvents`, so it never sees the exception. What the exception becomes as an HTTP response is not modelled (see below).
- The Bean Validation engine, the Spring wiring, the HTTP framing of the response and `GlobalExceptionHandler` are not modelled. In particular, the model does not say what response the duplicate-key failure below becomes.

## Findings

| source | as written | input that shows it | evidently intended | confidence | as-written member | corrected member |
|---|---|---|---|---|---|---|
| src/main/java/com/myproject/eventtrackingservice/service/EventServiceImpl.java:134-138 | `Collectors.toMap` keyed by property path, with no merge function, throws `IllegalStateException` when two violations share a path. `x` carries two violations when it is out of [0, 1] and also breaks `@Digits(integer = 1, fraction = 10)` | the line `1000,12.5,50` | one entry per violated field (here `x` and `y`), reported together as a rejected line | not executed | Processing.ValidateEventAsWritten, Processing.DuplicateKeyCounterexample, Processing.BatchAsWrittenStops, Processing.BatchCounterexample | Processing.ValidateEvent, Processing.ValidateEventOnePerField |
