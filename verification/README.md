# Custom multimedia lesson — a Dafny model of its codec, course state machine and LMS guards

This project models the core of a browser-hosted course player. The player shows lesson pages in a frame, tracks the learner's progress, grades quizzes and saves its state to a learning-management system (LMS). Three pieces are modelled. The first two each have an earlier revision, which is modelled next to the current one.

- **The save codec and event-log encoder.** This is `journaler` in `src/internal/journaler.js`, with its earlier revision `telemetry` in `src/internal/telemetry.js`.
  - A fixed two-way table maps event names to one-character tokens.
  - `log` appends `"<base-36 seconds>,<token>,<value>"` entries to a buffer.
  - `report` decodes entries into CSV rows.
  - `sanitize` strips the three delimiters `^`, `~` and `` ` ``.
  - `pack` builds the frame `v1 ^ userID ^ base36(start) ^ delta … ^ log~log~…`. When compression is enabled, it gzips the frame behind a `CGZ` marker.
  - `unpack` reverses the frame and has several rejection branches.
- **The course state machine and quiz grading.** This is `state` in `src/internal/script.js`, with its earlier revision in `src/script.js`.
  - The state is a list of pages with counters, the current page index, `progress` (the frontier page) and the course time.
  - The transitions are the one-second tick, `finalizePage`, `next`, `advancePage`, `prev` and `checkCourseCompletion`.
  - Completion of a page is `checkIfComplete`.
  - `gradeQuizQuestions` grades a quiz: an answer is correct when it matches the correct answers, ignoring case and order.
- **The LMS façade.** This is `lms` in `src/internal/lms.js`, with its two drivers: a SCORM 1.2 adapter and a browser local-storage adapter.
  - The façade refuses calls before `init`, and `init` selects a driver.
  - The SCORM 1.2 adapter enforces the save limit of 4095 UTF-16 code units (JavaScript's `length`) and accepts only the six values that the SCORM 1.2 run-time data model allows for `cmi.core.lesson_status`.

## Modelling choices

- Everything is a pure function over immutable datatypes.
  - Each course transition maps a `CourseState` to a `CourseState`.
  - `LegacyCourse` models the earlier state machine.
- Gzip-plus-base64 is a function parameter.
  - Compression is `string -> string`, where `""` stands for the failure the source catches.
  - Decompression is `string -> Option<string>`, where `None` stands for a throw.
- The clock (`Date.now()`) is a parameter.
- The restart prompt in `unpack` is a boolean oracle.
- The SCORM wrapper `pipwerks.SCORM` is a key/value map. Whether a write is accepted, the error code it then reports, and whether a commit succeeds come from a `ScormOracle`.
- Local storage is another map. Whether it accepts a write is a boolean.
- Integers are unbounded; deltas are integers. Scores, point values, rule thresholds and ratios are exact reals.
- A quotient that JavaScript can make infinite or `NaN` is a `JsNumber`. Comparisons with `NaN` are false.
- `parseInt(s, 36)` is modelled as ECMAScript defines it:
  - skip leading white space;
  - read an optional sign;
  - read the longest run of radix-36 digits;
  - `NaN` when that run is empty.
- `toString(36)` writes lower-case digits.
- A Dafny `char` is a Unicode scalar value, while JavaScript strings are UTF-16. Where the source counts or orders strings, the model works on code units: `length` is `Text.Utf16Length`, and the default sort is `Text.CodeUnitLe`.
- Two behaviours of the code shape the model:
  - `checkIfComplete` compares `scrolled` with strict equality against the page rule. A page that was scrolled fails a rule of `false`, and a page with no scroll rule never completes (`Pages.ScrolledIsStrict`).
  - `save`/`loadSave` persist the course state with JSON rather than through the codec. The model therefore builds no bridge between the course state and the codec's delta array.

## Model

| member | source | states |
|---|---|---|
| Events.TablesMirror | src/internal/journaler.js:16-74 | The decoding table lists the same 27 pairs as the encoding table, each reversed |
| Events.DistinctNames | src/internal/journaler.js:16-44 | No event name is listed twice, so every name has exactly one token |
| Events.DistinctTokens | src/internal/journaler.js:46-74 | No token is listed twice: the tokens are single characters in strictly increasing order |
| Events.EncodeThenDecode | src/internal/journaler.js:16-74 | Decoding the token of a known event name gives the name back; every token is one character other than the comma |
| Events.DecodeThenEncode | src/internal/journaler.js:16-74 | Encoding the name of a known token gives the token back |
| Events.DiagnosticDecodes | src/internal/journaler.js:70 | The token used for unknown actions decodes to DIAGNOSTIC |
| Base36.ParseToBase36 | src/internal/journaler.js:105-111 | `_fromBase36(_toBase36(n)) == n` for every integer, negative ones included |
| Base36.Base36Alphabet | src/internal/journaler.js:105-107 | `toString(36)` writes only digits, with a minus sign first exactly for negative numbers |
| Base36.ParseRejects | src/internal/journaler.js:109-111 | Text that starts with neither white space, a sign nor a digit parses to `NaN` |
| Base36.TrimStartSpec | src/internal/journaler.js:109-111 | The white space `parseInt` skips is exactly a white-space prefix, and what remains does not start with white space |
| Journaler.OffsetBounds | src/internal/journaler.js:158-163 | The offset is the elapsed time in whole seconds, rounded down, and is never negative once the clock has passed the start |
| Journaler.Log | src/internal/journaler.js:215-229 | `log` appends exactly one entry and changes nothing else: the old buffer is a prefix and every other field is kept |
| Journaler.ReportDecodesLoggedEvent | src/internal/journaler.js:231-258 | `report` reads back what `log` wrote: the row of a known action's entry names that action, at the base time plus the logged offset |
| Journaler.ReportDecodesLoggedValue | src/internal/journaler.js:241-258 | The row's page field is the value's first comma field, and its details are the remaining fields rejoined with commas |
| Journaler.UnknownEntryIsDiagnostic | src/internal/journaler.js:223-225 | The entry for an action missing from the table reports as DIAGNOSTIC |
| Journaler.UnknownEntryNamesAction | src/internal/journaler.js:224-225 | The entry for an unknown action contains the action name right after the fixed text |
| Journaler.LogUnknownAction | src/internal/journaler.js:223-227 | `log` never rejects an action: an unknown one is appended under DIAGNOSTIC, and the entry names it |
| Journaler.Report | src/internal/journaler.js:231-264 | One row per log record (the given log, else the codec's own), each carrying the given user id, else the codec's |
| Journaler.ReportIgnoresSessionStart | src/internal/journaler.js:234-238 | As written, a session start of 5000 ms leaves a 1-second entry at 1000 ms; the intended report places it at 6000 ms |
| Journaler.ReportIntendedRecoversLogTime | src/internal/journaler.js:234 | Given the logging session's start, the intended report places an entry within the second in which `log` was called |
| Frame.Sanitize | src/internal/journaler.js:286-298 | The loop's result is the input without `^`, `~` and `` ` ``, with every other character kept in order |
| Frame.WithoutDelimitersKeepsOthers | src/internal/telemetry.js:156-168 | The filter works character by character: it removes exactly the three delimiters and distributes over concatenation |
| Frame.WithoutDelimitersIdempotent | src/internal/journaler.js:286-298 | Sanitizing twice is the same as sanitizing once |
| Frame.ParseLog | src/internal/journaler.js:392 | The log field splits into entries free of `~` that rejoin to the field (empty field: no entries) |
| Frame.ParseFrame | src/internal/journaler.js:360-403 | The frame is rejected exactly when it has fewer than four `^` fields or field 0 is not `v1`; otherwise the deltas are the fields between the start and the log |
| Frame.ParseFrameRoundTrip | src/internal/journaler.js:371-403 | Parsing a frame built by `pack` recovers the user id, the start time, every delta and every log entry |
| Frame.NullStartReadsBackAsNumber | src/internal/journaler.js:312 | A start time of `null` is written as the text "null", which reads back as the number 1112745 |
| Frame.JsonBlobIsRecoverable | src/internal/journaler.js:386-389 | A JSON object or array delta without `^` is not mistaken for a base-36 number |
| Journaler.Pack | src/internal/journaler.js:300-325 | The buffer moves to the end of the log and is emptied. Without compression the result is the raw frame; with compression it starts with `CGZ` |
| Journaler.PackLosesFrameWhenCompressionFails | src/internal/journaler.js:320-324 | As written, a failing compressor makes `pack` return the bare `CGZ` for every state and delta array |
| Journaler.FallbackRecoversWhenCompressionFails | src/internal/journaler.js:323-324 | With the intended fallback, a failed compression saves the raw frame, and `unpack` recovers all of it |
| Journaler.Unpack | src/internal/journaler.js:327-408 | A missing or empty save gives `null` and no change. A locked-down course results exactly when a compressed save meets a browser without streams and the learner declines. On success the log and user id are adopted |
| Journaler.UnpackRejects | src/internal/journaler.js:349-366 | A failed decompression gives `null` unless the text starts with `v1^`, in which case the text is parsed raw; the frame checks then decide |
| Journaler.UnpackRawSave | src/internal/journaler.js:349-353 | A save starting with `v1^` is parsed raw whenever decompression is skipped or fails |
| Journaler.CompressedSaveOnIncapableBrowser | src/internal/journaler.js:333-340 | A compressed save where streams are missing locks the course when the learner declines, and starts afresh when they confirm |
| Journaler.RoundTripUncompressed | src/internal/journaler.js:304-315 | With compression off, `unpack(pack(d))` returns the user id, start, every delta and the whole log, and adopts log and user id |
| Journaler.RoundTripCompressed | src/internal/journaler.js:320-345 | With compression on, when decompression inverts compression, `unpack(pack(d))` recovers everything |
| Telemetry.TablesMirror | src/internal/telemetry.js:13-63 | The earlier decoding table lists the same 23 pairs as its encoding table, each reversed |
| Telemetry.DistinctNames | src/internal/telemetry.js:13-37 | No event name is listed twice in the earlier table |
| Telemetry.DistinctTokens | src/internal/telemetry.js:39-63 | No token is listed twice in the earlier table |
| Telemetry.EncodeThenDecode | src/internal/telemetry.js:13-63 | Decoding an encoded name gives it back; every token is one character |
| Telemetry.DecodeThenEncode | src/internal/telemetry.js:13-63 | Encoding a decoded name gives the token back |
| Telemetry.PausedToken | src/internal/telemetry.js:25 | The earlier revision names the pause event VIDEO_PAUSED, token "b" |
| Telemetry.PauseIsUnknown | src/internal/telemetry.js:13-37 | The later spelling VIDEO_PAUSE is not in the earlier table |
| Telemetry.GeneralTokenIsEncoding | src/internal/telemetry.js:20 | GENERAL has token "6", the token used for unknown actions |
| Telemetry.Log | src/internal/telemetry.js:139-147 | `log` appends exactly one entry and keeps the old buffer as a prefix |
| Telemetry.LogUnknownAction | src/internal/telemetry.js:144 | An unknown action is appended under GENERAL with the detail `<action> <value>` |
| Telemetry.LogKnownAction | src/internal/telemetry.js:144 | A known action is appended under its own token with the value as detail |
| Telemetry.Report | src/internal/telemetry.js:149-154 | The stub `report` returns the empty list for any input |
| Telemetry.Pack | src/internal/telemetry.js:170-186 | `pack` always tries compression, and returns the raw frame exactly when the compressor yields "" |
| Telemetry.Unpack | src/internal/telemetry.js:188-211 | `null` for a missing or empty save and for every failed decompression (no raw fallback); otherwise the shared frame parse |
| Telemetry.RoundTrip | src/internal/telemetry.js:223-248 | When compression succeeds and is inverted, `unpack(pack(d))` recovers the empty user id, the start, every delta and the buffer |
| Telemetry.RawFallbackIsNotRecovered | src/internal/telemetry.js:192-202 | The raw frame saved after a failed compression is not read back: `unpack` returns `null` |
| Grading.SortSpec | src/internal/script.js:361-362 | Sorting returns the same strings, as a multiset, in non-decreasing order of UTF-16 code units |
| Text.CodeUnitLeIsUtf16Order | src/internal/script.js:361-362 | The order the sort uses agrees, in both directions, with comparing the two strings' UTF-16 code units one by one, a prefix first |
| Text.EmojiSortsBeforeHalfwidthStop | src/internal/script.js:361-362 | An emoji (a surrogate pair starting 0xD83D) sorts before U+FF61, against their scalar order |
| Grading.SortedUnique | src/internal/script.js:361-369 | Two sorted lists holding the same strings are equal, so sorting fixes one arrangement |
| Grading.CorrectIffSameAnswers | src/internal/script.js:364-370 | A question is correct exactly when the lower-cased choices are the lower-cased correct answers as a multiset: order and case are ignored, multiplicity is not |
| Grading.GradeQuiz | src/internal/script.js:372-382 | The grade is -1 exactly when the points of all questions sum to at most 0; otherwise the maximum is positive |
| Grading.EarnedBounds | src/internal/script.js:372-373 | With non-negative points the score lies between 0 and the maximum, and equals the maximum when every answer is correct |
| Grading.NothingCorrect | src/internal/script.js:372 | A quiz with no correct answer scores 0 |
| Grading.GradeIgnoresOrderAndCase | src/internal/script.js:355-383 | Two response sets with the same lower-cased multiset of choices for each question get the same grade |
| Grading.EarnedIgnoresOrderAndCase | src/script.js:266-294 | The earlier revision's grading has the same code: the score depends on each question's lower-cased multiset of choices alone |
| Grading.ReversedUpperCaseEarnsFullCredit | src/internal/script.js:355-383 | Answering "B","A" to a question with answers "a","b" earns full credit |
| Grading.PartialAnswerEarnsNothing | src/internal/script.js:355-383 | Answering only "A" to the same question earns nothing |
| Pages.ScoreRatio | src/internal/script.js:261-262 | The ratio is 0 when the page has no positive maximum, and otherwise the score divided by the maximum |
| Pages.ScrolledIsStrict | src/internal/script.js:264-269 | A scrolled page fails a rule of `false`, and a page with no scroll rule never completes |
| Pages.CompleteStaysComplete | src/script.js:170-182 | More watch time never undoes completion |
| Pages.FreshPage | src/internal/script.js:473-487 | A loaded page has a path under `lessons/`, zero counters, is neither completed nor scrolled, and has as maximum the sum of its question points for a quiz and 0 otherwise |
| Pages.FreshPageComplete | src/internal/script.js:473-487 | A freshly loaded page is complete exactly when its rules ask for nothing and say `scrolled: false` |
| Pages.FreshPages | src/internal/script.js:473 | The loaded pages correspond one to one, in order, to the course definition's pages |
| Course.Start | src/internal/script.js:473-487 | The starting state is valid and initialized, and no page is completed |
| Course.Divide | src/internal/script.js:276 | A quotient is exact for a non-zero divisor, and is `NaN` exactly for `0 / 0` |
| Course.CalculateOverallGrade | src/internal/script.js:272-277 | The ratio is `NaN` exactly when both sums are 0, and the exact quotient whenever the maximum is non-zero |
| Course.NoGradedPagesNeverComplete | src/internal/script.js:279-291 | Without any scored page the grade is `NaN`, and a course whose students may not fail then never completes |
| Course.MissingRuleNeverCompletes | src/internal/script.js:279-291 | A course whose data leaves out the minimum time, or the minimum grade when students may not fail, never completes, because the comparison with `undefined` is false |
| Course.CheckCourseCompletionSpec | src/internal/script.js:279-292 | The course is done exactly when the time-and-grade gate is open and every page but the last is completed; only the last page can change, and only to completed |
| Course.MarkingKeepsGate | src/internal/script.js:284-285 | Marking a page completed leaves the time-and-grade gate unchanged |
| Course.CheckCourseCompletionIdempotent | src/internal/script.js:279-292 | Checking completion twice is the same as checking once |
| Course.FinalizeOnlyAtFrontier | src/internal/script.js:108-120 | `finalizePage` changes the state exactly when the current page is complete, is the frontier and is not yet completed; it then completes that page and adds 1 to progress |
| Course.FinalizeIdempotent | src/internal/script.js:108-120 | A second `finalizePage` is a no-op |
| Course.TickCounts | src/internal/script.js:44-52 | A tick adds one second to the course and to the current page and touches no other page |
| Course.AdvancePageIndex | src/internal/script.js:122-142 | From the second-to-last page, `advancePage` moves to the last page exactly when the course is done; on the last page it does nothing; otherwise it moves one page on |
| Course.AdvanceKeepsProgress | src/internal/script.js:122-142 | Moving between pages never changes progress |
| Course.Next | src/internal/script.js:144-148 | Before `init`, `next` changes nothing |
| Course.NextKeepsProgress | src/internal/script.js:153-161 | `next` may mark a completable page completed, but never moves progress |
| Course.NextStaysOnIncompletePage | src/internal/script.js:162-165 | `next` on a page that is neither completed nor complete changes nothing |
| Course.PrevClamps | src/internal/script.js:180-187 | `prev` moves one page back and stays on the first page |
| Course.RunGrows | src/internal/script.js:44-192 | Over any sequence of ticks, `next`, `prev` and completion checks, progress never decreases, no completed page is uncompleted, and the index stays on a page |
| Course.TicksKeepFinishedPage | src/internal/script.js:108-110 | Once the current page is completed and progress has passed it, ticks leave both alone |
| Course.TicksCompletePage | src/internal/script.js:44-52 | If n more seconds complete the frontier page, then n ticks mark it completed and add 1 to progress |
| Course.TenSecondPage | src/internal/script.js:44-52 | A first page that asks for ten seconds and nothing else is completed by ten ticks, and progress becomes 1 |
| Course.PassingStudentIsRestarted | src/internal/script.js:84-97 | As written, in a course that is neither complete-only nor lets students fail, every student reaching the end has met the minimum grade and is restarted |
| Course.IntendedStatusFollowsGrade | src/internal/script.js:84-97 | With the intended choice, a student at the end passes exactly when the grade is not below the minimum, and one who met it is never restarted |
| LegacyCourse.FinalizeSpec | src/script.js:184-209 | The earlier `finalizePage` fires exactly at a complete frontier page, even one already completed. It then completes that page, adds 1 to progress, and finishes the course exactly on the last page; otherwise nothing changes |
| LegacyCourse.FinalizeRepeatIsRefused | src/script.js:186 | An immediate second `finalizePage` returns false and changes nothing |
| LegacyCourse.TickCounts | src/script.js:42-50 | A tick adds one second to the course and to the current page and touches no other page |
| LegacyCourse.NextMoves | src/script.js:59-85 | The earlier `next` finalizes, then moves one page on exactly when the page is completed and is not the last; progress is what `finalizePage` left |
| LegacyCourse.PrevClamps | src/script.js:98-105 | `prev` moves one page back and stays on the first page |
| LegacyCourse.RunGrows | src/script.js:42-209 | Over any sequence of ticks, `next`, `prev` and `finalizePage`, progress never decreases, no completed page is uncompleted, and the index stays on a page |
| Lms.ScormSet | src/internal/lms.js:121-125 | An accepted write stores the value and reports true. A refused write stores nothing, and reports true exactly when the LMS error code is "0" |
| Lms.SaveDataLimit | src/internal/lms.js:189-197 | Save data longer than 4095 UTF-16 code units is refused without writing; shorter data is written when the LMS accepts it |
| Lms.BmpSaveLimit | src/internal/lms.js:189-197 | For text without supplementary characters, such as an ASCII save frame, the limit is 4095 characters |
| Lms.EmojiSaveRefused | src/internal/lms.js:104-112 | 2048 emoji are 4096 code units, so their save is refused although they are fewer than 4095 characters |
| Lms.ScormSetStatus | src/internal/lms.js:213-223 | A status outside the six valid values is refused without writing; a valid one is written to `cmi.core.lesson_status` |
| Lms.StatusValues | src/internal/lms.js:92 | "unknown" is not a status the adapter writes; "browsed" is |
| Lms.ScormInit | src/internal/lms.js:143-152 | A course whose status is "not attempted" or "unknown" becomes "incomplete"; any other status is left alone |
| Lms.ScormReset | src/internal/lms.js:159-179 | Reset blanks the suspend data, the raw, maximum and minimum score and the exit state, sets the status to "incomplete" and keeps every other key, adding none; the reply is the commit's |
| Lms.LocalSet | src/internal/lms.js:244-252 | A write lands under the prefixed key and reports true, or, when storage throws, changes nothing and reports false |
| Lms.LocalSetStatus | src/internal/lms.js:295-299 | The standalone adapter stores any status and always reports true |
| Lms.LocalReset | src/internal/lms.js:263-270 | The standalone reset removes exactly the prefixed keys and keeps every other key and value |
| Lms.LocalResetForgetsSave | src/internal/lms.js:263-288 | After a standalone reset the saved data reads back as `null` |
| Lms.InitType | src/internal/lms.js:20-32 | "SCORM 1.2" selects the SCORM driver; every other explicit type, "SCORM 2004" included, ends initialized in standalone mode |
| Lms.InitSelectsDriver | src/internal/lms.js:6-35 | Only an explicit "SCORM 1.2", or detection of a connected 1.2 wrapper, selects SCORM; every other case ends initialized in standalone mode, with the SCORM store untouched |
| Lms.UninitializedIsNoOp | src/internal/lms.js:37-81 | Before `init` every façade call returns false (`loadData`: null) and changes nothing |
| Lms.SaveThenLoad | src/internal/lms.js:57-65 | Once initialized, data saved through the façade reads back through it, with either driver, when the write is accepted and, for SCORM, the data fits in 4095 code units |
| Lms.FacadeSetStatus | src/internal/lms.js:72-76 | The façade's `setStatus` returns nothing; through SCORM an invalid status changes nothing |

## Left out

- Gzip through `CompressionStream`/`DecompressionStream` and base64 through `btoa`/`atob` are function parameters. The model assumes no particular compressor.
- The clock (`Date.now`) and calendar formatting (`getHumanTime`) are left out. The clock is a parameter, and a report row carries the instant it would format.
- `journaler.init` is left out: it reads the clock and fetches a configuration file. Stream support is a field of the codec state, read as whether the stream constructors exist. Before `init` the source's flag is still false where they do exist, so a `CGZ` save unpacked before `init` and confirmed by the learner decompresses in the program but gives `null` in the model.
- `transmit` and `exportCSV` are left out: they are network and file I/O.
- `state.alert` and `state.lockDown`, called from `unpack`, are not part of this model. The learner's answer is a boolean oracle, and the lock-down is a flag in the result.
- The DOM, the lesson frame, the banner, the info bar, quiz rendering and message handling are left out: they are presentation only.
- `loadCourseData`'s fetch is left out; only the page records it builds are modelled. `save`/`loadSave` (JSON in local storage) and the state's `reset` (confirm and reload) are also left out: they are I/O.
- The logging, saving and LMS calls made inside the course transitions are left out. `handleLastPage`'s status is returned as an outcome, and the earlier `finalizePage` returns whether it finished the course instead of writing it to the LMS.
- `gradeQuizQuestions2` is left out: it is unused and its own comment says it does not work.
- `Scorm12Adapter._formatTime` and the rounding in `setScore` are left out: they are floating-point formatting.
- src/internal/components.js, src/internal/children.js and tools/make.manifest.js are not part of this model. They are UI, message plumbing and a build tool.
- Lms.Dispatch: `setScore`, `setSessionTime` and `quit` leave both stores unchanged in the model. Their writes are formatted numbers, and the reply is what the source returns.
- Lms.ScormReset: one oracle answers all six writes of a reset alike. A real LMS could refuse some writes and accept others.
- Base36.ParseToBase36: only integers are modelled. A non-integer delta is written in decimal by `String(num)` and is not recovered by `parseInt`; this case is not stated.
- Frame.ParseFrame: numbers are unbounded integers. `parseInt` precision beyond 2^53 and negative zero are not modelled.
- Grading.SortSpec: `toLowerCase` is modelled on ASCII letters only, so answers that differ only in the case of other letters are graded as different.
- Journaler.Log: `String(value)` and `JSON.stringify(value)` are done by the runtime; the model takes their text as given. Keys inherited from `Object.prototype` (e.g. "constructor") are not looked up in the tables.
- Pages.ScrolledIsStrict: a rule field that is missing from the course file reads as `undefined`. The model keeps this for `scrolled` and for the course rules; the numeric page-rule fields are always present.

## Findings

| source | as written | input that shows it | evidently intended | confidence | as-written member | corrected member |
|---|---|---|---|---|---|---|
| src/internal/journaler.js:320-324 | With compression on, `pack` returns `"CGZ" + gzip(raw)`, which is truthy even when the compressor fails and yields "" | compression supported and enabled, compressor throws: `pack` returns "CGZ" for any state | return the raw frame whenever compression yields "" (the comment on line 323) | not executed | Journaler.PackLosesFrameWhenCompressionFails | Journaler.FallbackRecoversWhenCompressionFails |
| src/internal/journaler.js:234-238 | `report` stores the session start in `this.startTime`, but the formatter reads `this._startTime`, so the argument has no effect | codec start 0, `report("", ["1,0,x"], 5000)`: the row's time is 1000 ms | timestamps count from the session start passed in | not executed | Journaler.ReportIgnoresSessionStart | Journaler.ReportIntendedRecoversLogTime |
| src/internal/script.js:84-97 | The restart branch runs when the course is neither complete-only nor lets students fail. `checkCourseCompletion` has already required the minimum grade there, so it restarts students who passed | `completeOnly = false`, `studentsCanFail = false`, all pages done, grade at least the minimum: the course resets | pass a student who met the minimum grade, as the restart message implies | not executed | Course.PassingStudentIsRestarted | Course.IntendedStatusFollowsGrade |
