# desmoke in Dafny

`desmoke.py` reads the log of a MongoDB `resmoke` test run and reprints each uncaught
JavaScript assertion as a report whose first line an editor can jump to:
`file:line:column: error: message` or `file:line:column: warning: Type: message`.
For a failed `assert.eq`, the report goes on for three more lines with a deep diff of the two
sides (desmoke.py:187).

The project models two parts of the tool.

1. **The deep structural diff** (`diff`, `list_diff`, `dict_diff`).
   - A parsed JSON value is the datatype `JsonDiff.Json`.
   - `Diff` is `None` exactly for equal values. Otherwise it gives the pair of parts that differ:
     - objects are narrowed key by key;
     - arrays are narrowed position by position along the zipped prefix, with the tail of the
       longer array kept on its own side;
     - any other unequal pair is returned whole.
   - `DiffProperties` proves facts about it:
     - it is symmetric;
     - a diff is its own diff, so it is already minimal;
     - the array loop keeps exactly the differing positions, in order.
2. **The resmoke log parser.** It is a state machine `Start → Assertion → Traceback → Complete`.
   - `Resmoke.Step` is `BaseState.step`. Lines that are not `[tag] contents`, and lines whose tag
     does not start with `js_test`, are ignored.
   - `Resmoke.ProcessContents` is `process_contents` together with the `process` of each state.
   - A complete state replays the line that ended its traceback through a fresh start state.
   - `Resmoke.Get` turns a complete state into an assertion:
     - the position is the first frame of the traceback in a `jstests` file
       (`Position.from_traceback`);
     - the kinds are tried in the order `Inequality`, `JSError`, `Assertion`
       (`CompleteState.get`).
   - `Assertions.AssertionText` builds the report of each kind (the `__str__` methods). Its
     `Inequality` branch is the corrected `Assertions.InequalityText`; `Inequality.__str__` as
     written, which can raise, is `Assertions.InequalityTextAsWritten`.
   - `Reporting` models the loop of `process_resmoke` and the `--summary` block.

The two regular expressions the parser relies on are written as deterministic recognisers:
- `LINE_PATTERN` becomes `LogPatterns.MatchLine`;
- `FILE_TRACE_PATTERN` becomes `LogPatterns.MatchTrace`.

Each recogniser is proved to be the exact inverse of the text it reads:
- `MatchLine` inverts `[tag] contents`;
- `MatchTrace` inverts `[function@]file:line:column`.

Some things are parameters of the model rather than code inside it:
- the three assertion patterns;
- `json.loads`, `json.dumps` and `str`.

The code collects assertions only; `--summary` prints the collected reports between two `----`
lines (desmoke.py:500-503).

Files:
- `results.dfy`: `Option` and `Result`.
- `text.dfy`: Python's `strip`, `startswith`, `join` and `split`.
- `json_diff.dfy`, `diff_properties.dfy`: the diff.
- `log_patterns.dfy`: the line and trace recognisers.
- `assertions.dfy`: `from_traceback`, classification and report text.
- `resmoke.dfy`, `resmoke_properties.dfy`: the state machine.
- `reporting.dfy`: the report loop and the summary.

## Model

| member | source | states |
|---|---|---|
| JsonDiff.Diff | desmoke.py:16-32 | The result is `None` exactly when the two values are equal. Unequal values of different kinds, or unequal scalars, come back whole as `(a, b)`. When there is a result, its two sides differ and keep the kinds of the inputs. |
| JsonDiff.ZipDiff | desmoke.py:42-46 | The loop over `zip(a, b)` gives two equally long lists, no longer than either input. The pair at each index differs. Both lists are empty exactly when the zipped prefix agrees. |
| JsonDiff.ListDiff | desmoke.py:35-56 | Each side begins with the zipped diffs of the loop. The side of the shorter list is exactly those diffs. The other side follows them with the unchanged tail of the longer list, which carries the whole length difference. Each side is no longer than its input, and unequal lists give unequal sides. |
| JsonDiff.DictDiff | desmoke.py:59-82 | A non-object pair comes back whole. A key on one side only keeps its original value on that side and is absent from the other. A shared key with equal values is in neither side. A shared key with unequal values holds the two sides of its recursive diff. So each side's keys are a subset of its input's keys. |
| DiffProperties.DiffSymmetric | desmoke.py:16-32 | Diffing `b` against `a` gives the diff of `a` against `b` with its sides swapped. |
| DiffProperties.ListDiffSymmetric | desmoke.py:35-56 | Swapping the two lists swaps the two sides of `list_diff`. |
| DiffProperties.DictDiffSymmetric | desmoke.py:59-82 | Swapping the two objects swaps the two sides of `dict_diff`. |
| DiffProperties.DiffOfDiff | desmoke.py:16-32 | The diff is minimal: diffing its two sides again gives the same diff back. |
| DiffProperties.ListDiffOfListDiff | desmoke.py:35-56 | Applying `list_diff` to its own result gives that result back. |
| DiffProperties.DictDiffOfDictDiff | desmoke.py:59-82 | Applying `dict_diff` to its own result gives that result back. |
| DiffProperties.ZipDiffIgnoresTail | desmoke.py:42-46 | `zip` stops at the shorter list: elements past it never reach the loop. |
| DiffProperties.ZipDiffKeepsDifferingPositions | desmoke.py:42-46 | The loop keeps exactly the positions of the zipped prefix where the lists differ, in increasing order. Its j-th pair is the diff at the j-th such position. |
| DiffProperties.NestedFieldDiff | desmoke.py:59-82 | `{"id":1,"message":{"hello":"A"}}` against `{"id":1,"message":{"hello":"B"}}` diffs to `message.hello` with `"A"` and `"B"`. The equal field `id` is dropped. |
| LogPatterns.MatchLine | desmoke.py:190 | A match is a non-empty `[\w:]` tag and non-empty contents without a newline. Written as `[tag] contents`, they rebuild the line, up to one final newline. |
| LogPatterns.MatchLineComplete | desmoke.py:190 | Every well-formed `[tag] contents` line is recognised, with or without its final newline, and gives back its tag and contents. |
| LogPatterns.SplitPositionComplete | desmoke.py:85 | `file:line:column` built from a valid position reads back as that position. |
| LogPatterns.MatchTraceSound | desmoke.py:85 | Whatever the trace pattern accepts is an optional `[\w.]*@` prefix followed by the position it returned, up to one final newline. |
| LogPatterns.MatchTraceComplete | desmoke.py:85 | Every frame built from a valid function part and a valid position is recognised, with or without a final newline, and gives back that position. |
| LogPatterns.NotTraceWithoutColon | desmoke.py:85 | A line without a colon is never a trace frame. |
| LogPatterns.TraceHasNoSpace | desmoke.py:85 | A trace frame holds no space character. |
| Text.Strip | desmoke.py:270 | `strip()` returns the slice between an all-whitespace head and an all-whitespace tail, and neither of its ends is whitespace. |
| Text.StripIdempotent | desmoke.py:270 | A stripped line has nothing left to strip. |
| Assertions.FromTraceback | desmoke.py:99-110 | Never raises when every line is a frame. Otherwise it finds the position of the first frame in a `jstests` file, with every earlier line a frame outside `jstests`. It gives `None` when every line is such a frame. It raises `ValueError` on the first non-frame line reached before any `jstests` frame. |
| Assertions.InequalityParse | desmoke.py:172-183 | Succeeds exactly when both sides decode, and the sides are the decoded values. Otherwise it fails with `JSONDecodeError`, naming the first side that does not decode. The message is `<no message>` when the group is absent. When present, it is the decoded text after the colon, or that text itself when it does not decode. |
| Assertions.FirstFound | desmoke.py:301-304 | Reference search: the kind returned has its pattern found, and no kind before it in the order does. `None` means no pattern of the list is found. |
| Assertions.Classify | desmoke.py:298-307 | The position is passed through. An inequality match is parsed by `Inequality.do_parse`. `JSError` and `Assertion` take their groups, using `<no message>` for a missing one. The only errors are `JSONDecodeError` from an inequality match and `RuntimeError` when nothing matches. |
| Assertions.ClassifyFollowsOrder | desmoke.py:298-307 | A parsed assertion is of the first kind in the order `Inequality`, `JSError`, `Assertion` whose pattern is found. `RuntimeError` is raised exactly when no pattern is found. A failing `Inequality` parse is never retried as a later kind. |
| Assertions.InequalityTextAsWritten | desmoke.py:185-187 | As written, the report raises exactly when the two decoded sides are equal. |
| Assertions.KeyOrderCrashesReport | desmoke.py:185-187 | `{"a":1,"b":2} != {"b":2,"a":1}` decodes to two equal objects, so its report raises. |
| Assertions.InequalityText | desmoke.py:185-187 | The corrected report always starts with the `assert equals failed` headline. It is exactly the headline when the two sides are equal. |
| Assertions.InequalityTextRefines | desmoke.py:185-187 | Wherever the original report does not raise, the corrected one is identical to it. |
| Assertions.ReportLead | desmoke.py:143-187 | Every report is `position: severity: ` followed by the rest. The severity is `warning` for `JSError` and `error` for the other two kinds. |
| Assertions.ReportStartsWithFrame | desmoke.py:112-158 | A report with a position begins with `file:line:column`. The trace pattern reads that prefix back as the same position, and `: error: ` or `: warning: ` follows it. |
| Resmoke.Process | desmoke.py:243-316 | Only a traceback state ended by a non-frame line returns a complete state. A complete state always transitions, and never to another complete state. |
| Resmoke.ProcessContents | desmoke.py:204-316 | A start state opens an assertion exactly on contents starting with `uncaught exception:`, keeping what follows those words. An assertion state moves to a traceback state exactly on a frame line, and otherwise appends the stripped line. A traceback state completes exactly on a non-frame line, with the assertion lines joined and the frames kept, and otherwise appends the frame. |
| Resmoke.StepChangesOnlyOnTestLines | desmoke.py:215-225 | A step that changes the state read a `[tag] contents` line whose tag starts with `js_test`, and processed its contents. |
| Resmoke.Get | desmoke.py:298-307 | Calling `get` fails exactly on a state that is not complete, with the `TypeError` Python raises because `BaseState.get` is declared without `self`. On a complete state, an error of `from_traceback` is the error returned. Otherwise the assertion text is classified with the position `from_traceback` finds. |
| Resmoke.GetFollowsOrder | desmoke.py:298-307 | On a complete state whose traceback reads, `get` returns an assertion of the first kind in the order `Inequality`, `JSError`, `Assertion` whose pattern is found. It raises `RuntimeError` exactly when no pattern is found. |
| ResmokeProperties.StepOnLogLine | desmoke.py:215-225 | A well-formed log line reaches the state machine exactly when its tag starts with `js_test`. The newline `readline` leaves on it makes no difference. |
| ResmokeProperties.CompleteReplaysLine | desmoke.py:309-316 | The line that ended a traceback is not lost. If it opens an assertion, the next line continues that assertion as its first continuation or first frame. Otherwise the parser acts as if it had just started. |
| ResmokeProperties.ProcessContentsPreserves | desmoke.py:254-284 | Processing one line keeps the collected state well formed. Every assertion line after the first is stripped. Every collected traceback line is a frame, and there is at least one. A complete state's stored line is not a frame. |
| ResmokeProperties.StepPreserves | desmoke.py:215-225 | `step` keeps the collected state well formed. |
| ResmokeProperties.RunPreserves | desmoke.py:393-399 | Feeding any lines to `step`, one by one from a well-formed state, ends in a well-formed state. |
| ResmokeProperties.GetNeverFailsOnTraceback | desmoke.py:99-110 | For any log, `from_traceback` cannot raise on a complete state the parser reaches. So `get` fails only on an undecodable equality side or an unmatched assertion text. |
| Reporting.ReportsAsWrittenAreCompleteStates | desmoke.py:393-406 | The loop as written calls `get` exactly once per line that leaves the parser complete, in line order: its `k`-th call is on the state after the `k`-th such line. So a complete state left in place by ignored lines is reported once per line. |
| Reporting.ReportsAreCompletions | desmoke.py:393-406 | The corrected loop reports exactly once per line that moves the parser into the complete state, in line order: its `k`-th report is the state after the `k`-th such line. |
| Reporting.StaysCompleteOnlyWhenIgnored | desmoke.py:309-316 | A complete parser is still complete after a line only if the line was ignored and the state is unchanged. |
| Reporting.ReportsSameStates | desmoke.py:393-406 | Both loops report the same assertions. The loop as written adds nothing except a repeat of a complete state it is already in. |
| Reporting.ReportsBounded | desmoke.py:393-406 | Along any run, reports plus the assertion still in flight never exceed what was in flight at the start plus the number of lines that open an assertion. |
| Reporting.ReportsAtMostOpenings | desmoke.py:393-406 | From the start state, the corrected loop reports no more assertions than the log opens. |
| Reporting.ServerLineRepeatsReport | desmoke.py:393-406 | Take any one-frame assertion ended by a line of test output and followed by a server log line. The loop as written reports it twice, the corrected loop once, and the log opens one assertion. |
| Reporting.ServerLineExample | desmoke.py:393-406 | A concrete four-line log with one assertion is reported twice by the loop as written. |
| Reporting.SummaryLines | desmoke.py:500-503 | Read back line by line, the summary is a `----` line, then each report in order (or one empty line when there are none), then a `----` line, then nothing after the final newline. |
| Reporting.SummaryAsWritten | desmoke.py:500-503 | As written, the join raises exactly when some collected item is not a string, and names the first such item. |
| Reporting.ResmokeSummaryCrashes | desmoke.py:500-503 | A resmoke run that reported anything raises at its first report when it prints the summary. Only a run with no report prints the two rulers. |
| Reporting.ReportSummaryAgrees | desmoke.py:500-503 | The corrected summary is exactly what the original join prints for the report texts themselves. |
| Reporting.ReportSummaryLines | desmoke.py:500-503 | The corrected summary holds every one-line report in the order found, between the two rulers. |

## Left out

- `install_task` (desmoke.py:319-383) writes an editor configuration file and prompts on the
  terminal. It is file I/O with no logic to verify.
- `setup_parser` and `main` (desmoke.py:437-503) are argument parsing, the choice of file or
  standard input, and guessing the log kind from the first line. Only the summary block is
  modelled.
- The I/O in `process_resmoke` (desmoke.py:393-406) is left out:
  - `readline`;
  - echoing each line in pass-through mode;
  - `desmoke_print`;
  - closing the file.

  Its loop is modelled as the sequence of states `get` is called on.
- Reporting.ReportsAsWritten: the sequence goes on past a state whose `get` raises
  (`JSONDecodeError` at desmoke.py:174-175 or `RuntimeError` at desmoke.py:305), and past a
  report whose printing raises (desmoke.py:186, reached from desmoke.py:402). In the program
  either exception ends `process_resmoke`, so the model's sequence is what is reported when no
  such exception occurs.
- `process_unittest` and `UNITTEST_ERROR_PATTERN` (desmoke.py:409-434) are not modelled. They
  handle the C++ unit-test log, where each line is decoded by `json.loads` and matched against
  a regular expression, and do not involve the resmoke parser.
- `json.loads`, `json.dumps` and `str` of a decoded value are parameters (`Patterns.loads`,
  `Printer`). Their text formats are not modelled, including the key order `json.dumps` prints.
- The three assertion patterns (desmoke.py:122, 149, 167) are parameters giving their groups.
  Regular-expression search itself is not modelled.
- `LINE_PATTERN` and `FILE_TRACE_PATTERN` are hand-written recognisers in which `\w` and `\d`
  are ASCII. Python's `str` patterns also accept non-ASCII letters and digits there.
- JSON values have integers only and a separate boolean kind. Floating-point numbers and
  Python's `True == 1` and `1 == 1.0` are left out.
- `Assertions.Classify` keeps the `<no message>` fallback of `Assertion.do_parse`
  (desmoke.py:130-131). With CPython's engine, group 1 of `Error: (.*)?:$` always takes part in
  a match, so the fallback is not reached there. The pattern is a parameter here, so the branch
  stays.
- `Resmoke.Step` carries no contract of its own. What it does is stated by
  `Resmoke.StepChangesOnlyOnTestLines` and `ResmokeProperties.StepOnLogLine`.

## Findings

| source | as written | input that shows it | evidently intended | confidence | as-written member | corrected member |
|---|---|---|---|---|---|---|
| desmoke.py:185-187 | `Inequality.__str__` unpacks `diff(self.left, self.right)`, which is `None` when the two decoded sides are equal, so the report raises `TypeError` | the assertion text `Error: {"a":1,"b":2} != {"b":2,"a":1} are not equal :`, whose two sides decode to the same object | print the headline, and the diff block only when the sides differ | not executed | Assertions.InequalityTextAsWritten | Assertions.InequalityText |
| desmoke.py:393-406 | `process_resmoke` calls `get` whenever the parser is complete, but `step` ignores server log lines and leaves a complete state in place, so the same assertion is printed and collected again for every ignored line | `[js_test:t] uncaught exception: Error: boom :`, `[js_test:t] jstests/a.js:1:2`, `[js_test:t] done`, `[j0] server` | report an assertion once, on the line that completes it | not executed | Reporting.ServerLineRepeatsReport | Reporting.ReportsAreCompletions |
| desmoke.py:500-503 | `"\n".join(assertions)` is given the `Assertion` objects `process_resmoke` collects, and Python's `str.join` raises `TypeError` on an item that is not a string | `--summary` on any resmoke log that reports an assertion, such as the log of the row above | join the printed text of each report | not executed | Reporting.ResmokeSummaryCrashes | Reporting.ReportSummaryLines |
