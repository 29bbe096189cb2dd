/** The loop of `process_resmoke` that reports an assertion whenever the parser is complete, and
    the summary printed after it. */
module Reporting {
  import opened Results
  import opened Text
  import opened LogPatterns
  import opened Assertions
  import opened Resmoke
  import opened ResmokeProperties

  /** The states `get` is called on by `process_resmoke` as written: after every line, whenever
      the parser is complete. */
  function ReportsAsWritten(s: ParserState, lines: seq<string>): (r: seq<ParserState>)
    ensures |r| <= |lines|
    ensures forall i :: 0 <= i < |r| ==> IsComplete(r[i])
    decreases |lines|
  {
    if |lines| == 0 then []
    else
      var t := Step(s, lines[0]);
      (if IsComplete(t) then [t] else []) + ReportsAsWritten(t, lines[1..])
  }

  /** The states `get` is called on when a line only reports the assertion it completes: after a
      line that moved the parser into the complete state. */
  function Reports(s: ParserState, lines: seq<string>): (r: seq<ParserState>)
    ensures |r| <= |lines|
    ensures forall i :: 0 <= i < |r| ==> IsComplete(r[i])
    decreases |lines|
  {
    if |lines| == 0 then []
    else
      var t := Step(s, lines[0]);
      (if !IsComplete(s) && IsComplete(t) then [t] else []) + Reports(t, lines[1..])
  }

  /** A complete parser leaves the complete state on every line it processes, so it is still
      complete after a line only when that line was ignored. */
  lemma StaysCompleteOnlyWhenIgnored(s: ParserState, line: string)
    requires IsComplete(s) && IsComplete(Step(s, line))
    ensures Step(s, line) == s
  {
    StepChangesOnlyOnTestLines(s, line);
  }

  /** Both loops report the same assertions; the loop as written repeats the state it started
      in, when that is complete, and never reports anything else twice in a row. */
  lemma {:induction false} ReportsSameStates(s: ParserState, lines: seq<string>)
    ensures forall x :: x in Reports(s, lines) ==> x in ReportsAsWritten(s, lines)
    ensures forall x :: x in ReportsAsWritten(s, lines) ==> x in Reports(s, lines) || (x == s && IsComplete(s))
    decreases |lines|
  {
    if |lines| > 0 {
      var t := Step(s, lines[0]);
      ReportsSameStates(t, lines[1..]);
      if IsComplete(s) && IsComplete(t) {
        StaysCompleteOnlyWhenIgnored(s, lines[0]);
      }
    }
  }

  /** The parser is complete after the first `j` lines. */
  predicate CompleteAfter(s: ParserState, lines: seq<string>, j: nat) {
    1 <= j <= |lines| && IsComplete(Run(s, lines[..j]))
  }

  /** The `j`-th line moved the parser into the complete state. */
  predicate CompletedBy(s: ParserState, lines: seq<string>, j: nat) {
    CompleteAfter(s, lines, j) && !IsComplete(Run(s, lines[..j - 1]))
  }

  /** A run of the first `j` lines is the first step followed by a run of the next `j - 1`. */
  lemma RunAfterFirst(s: ParserState, lines: seq<string>, j: nat)
    requires 1 <= j <= |lines|
    ensures Run(s, lines[..j]) == Run(Step(s, lines[0]), lines[1..][..j - 1])
  {
    assert lines[..j][0] == lines[0];
    assert lines[..j][1..] == lines[1..][..j - 1];
  }

  /** A run of the first `j` lines is the `j`-th step after a run of the first `j - 1`. */
  lemma {:induction false} RunOneMore(s: ParserState, lines: seq<string>, j: nat)
    requires 1 <= j <= |lines|
    ensures Run(s, lines[..j]) == Step(Run(s, lines[..j - 1]), lines[j - 1])
    decreases j
  {
    RunAfterFirst(s, lines, j);
    if j == 1 {
      assert lines[..0] == [] && lines[1..][..0] == [];
    } else {
      RunOneMore(Step(s, lines[0]), lines[1..], j - 1);
      RunAfterFirst(s, lines, j - 1);
    }
  }

  /** The line counts from `i` on after which the parser is complete, in increasing order. */
  function CompleteLinesFrom(s: ParserState, lines: seq<string>, i: nat): (js: seq<nat>)
    requires 1 <= i
    ensures forall k :: 0 <= k < |js| ==> i <= js[k] && CompleteAfter(s, lines, js[k])
    ensures forall k, m :: 0 <= k < m < |js| ==> js[k] < js[m]
    ensures forall j: nat :: i <= j && CompleteAfter(s, lines, j) ==> j in js
    decreases |lines| + 1 - i
  {
    if i > |lines| then []
    else
      var rest := CompleteLinesFrom(s, lines, i + 1);
      if CompleteAfter(s, lines, i) then [i] + rest else rest
  }

  /** The line counts from `i` on whose last line moved the parser into the complete state, in
      increasing order. */
  function CompletingLinesFrom(s: ParserState, lines: seq<string>, i: nat): (js: seq<nat>)
    requires 1 <= i
    ensures forall k :: 0 <= k < |js| ==> i <= js[k] && CompletedBy(s, lines, js[k])
    ensures forall k, m :: 0 <= k < m < |js| ==> js[k] < js[m]
    ensures forall j: nat :: i <= j && CompletedBy(s, lines, j) ==> j in js
    decreases |lines| + 1 - i
  {
    if i > |lines| then []
    else
      var rest := CompletingLinesFrom(s, lines, i + 1);
      if CompletedBy(s, lines, i) then [i] + rest else rest
  }

  /** The line counts after which the parser is complete. */
  function CompleteLines(s: ParserState, lines: seq<string>): seq<nat> {
    CompleteLinesFrom(s, lines, 1)
  }

  /** The line counts whose last line completes an assertion. */
  function CompletingLines(s: ParserState, lines: seq<string>): seq<nat> {
    CompletingLinesFrom(s, lines, 1)
  }

  /** The `k`-th state of `r` is the state after the first `js[k]` lines. */
  predicate ReportedAfter(s: ParserState, lines: seq<string>, r: seq<ParserState>, js: seq<nat>) {
    |r| == |js| && forall k :: 0 <= k < |js| ==> js[k] <= |lines| && r[k] == Run(s, lines[..js[k]])
  }

  /** Reporting the state after the first `i` lines, or nothing, ahead of the later reports. */
  lemma ReportedAfterCons(s: ParserState, lines: seq<string>, r: seq<ParserState>, js: seq<nat>,
                          rest: seq<ParserState>, jrest: seq<nat>, t: ParserState, i: nat, reported: bool)
    requires ReportedAfter(s, lines, rest, jrest)
    requires reported ==> i <= |lines| && t == Run(s, lines[..i])
    requires r == (if reported then [t] else []) + rest && js == (if reported then [i] else []) + jrest
    ensures ReportedAfter(s, lines, r, js)
  {
    if reported {
      forall k | 1 <= k < |js|
        ensures js[k] <= |lines| && r[k] == Run(s, lines[..js[k]])
      {
        assert r[k] == rest[k - 1] && js[k] == jrest[k - 1];
      }
    }
  }

  /** From the `i`-th line on, the loop as written reports once per complete line count, in
      order. */
  lemma {:induction false} ReportsAsWrittenFrom(s: ParserState, lines: seq<string>, i: nat)
    requires 1 <= i <= |lines| + 1
    ensures ReportedAfter(s, lines, ReportsAsWritten(Run(s, lines[..i - 1]), lines[i - 1..]), CompleteLinesFrom(s, lines, i))
    decreases |lines| + 1 - i
  {
    if i <= |lines| {
      ReportsAsWrittenFrom(s, lines, i + 1);
      RunOneMore(s, lines, i);
      var u := Run(s, lines[..i - 1]);
      var t := Step(u, lines[i - 1]);
      assert lines[i - 1..][0] == lines[i - 1] && lines[i - 1..][1..] == lines[i..];
      ReportedAfterCons(s, lines, ReportsAsWritten(u, lines[i - 1..]), CompleteLinesFrom(s, lines, i),
        ReportsAsWritten(t, lines[i..]), CompleteLinesFrom(s, lines, i + 1), t, i, IsComplete(t));
    }
  }

  /** From the `i`-th line on, the corrected loop reports once per completing line count, in
      order. */
  lemma {:induction false} ReportsFrom(s: ParserState, lines: seq<string>, i: nat)
    requires 1 <= i <= |lines| + 1
    ensures ReportedAfter(s, lines, Reports(Run(s, lines[..i - 1]), lines[i - 1..]), CompletingLinesFrom(s, lines, i))
    decreases |lines| + 1 - i
  {
    if i <= |lines| {
      ReportsFrom(s, lines, i + 1);
      RunOneMore(s, lines, i);
      var u := Run(s, lines[..i - 1]);
      var t := Step(u, lines[i - 1]);
      assert lines[i - 1..][0] == lines[i - 1] && lines[i - 1..][1..] == lines[i..];
      ReportedAfterCons(s, lines, Reports(u, lines[i - 1..]), CompletingLinesFrom(s, lines, i),
        Reports(t, lines[i..]), CompletingLinesFrom(s, lines, i + 1), t, i, !IsComplete(u) && IsComplete(t));
    }
  }

  /** The loop as written calls `get` once after every line that leaves the parser complete, in
      line order, and at no other time: the `k`-th call is on the state after the `k`-th such
      line. Hence every such state is reported, and nothing else is. */
  lemma ReportsAsWrittenAreCompleteStates(s: ParserState, lines: seq<string>)
    ensures |ReportsAsWritten(s, lines)| == |CompleteLines(s, lines)|
    ensures forall k :: 0 <= k < |CompleteLines(s, lines)| ==>
      ReportsAsWritten(s, lines)[k] == Run(s, lines[..CompleteLines(s, lines)[k]])
    ensures forall j: nat :: CompleteAfter(s, lines, j) ==> Run(s, lines[..j]) in ReportsAsWritten(s, lines)
    ensures forall x :: x in ReportsAsWritten(s, lines) ==> exists j: nat :: CompleteAfter(s, lines, j) && x == Run(s, lines[..j])
  {
    ReportsAsWrittenFrom(s, lines, 1);
    assert lines[..0] == [] && lines[0..] == lines;
    var r, js := ReportsAsWritten(s, lines), CompleteLines(s, lines);
    forall j: nat | CompleteAfter(s, lines, j)
      ensures Run(s, lines[..j]) in r
    {
      var k :| 0 <= k < |js| && js[k] == j;
      assert r[k] == Run(s, lines[..j]);
    }
    forall x | x in r
      ensures exists j: nat :: CompleteAfter(s, lines, j) && x == Run(s, lines[..j])
    {
      var k :| 0 <= k < |r| && r[k] == x;
      assert CompleteAfter(s, lines, js[k]) && x == Run(s, lines[..js[k]]);
    }
  }

  /** The corrected loop reports once after every line that moves the parser into the complete
      state, in line order, and at no other time: the `k`-th report is the state after the
      `k`-th such line. Hence every completion is reported, and nothing else is. */
  lemma ReportsAreCompletions(s: ParserState, lines: seq<string>)
    ensures |Reports(s, lines)| == |CompletingLines(s, lines)|
    ensures forall k :: 0 <= k < |CompletingLines(s, lines)| ==>
      Reports(s, lines)[k] == Run(s, lines[..CompletingLines(s, lines)[k]])
    ensures forall j: nat :: CompletedBy(s, lines, j) ==> Run(s, lines[..j]) in Reports(s, lines)
    ensures forall x :: x in Reports(s, lines) ==> exists j: nat :: CompletedBy(s, lines, j) && x == Run(s, lines[..j])
  {
    ReportsFrom(s, lines, 1);
    assert lines[..0] == [] && lines[0..] == lines;
    var r, js := Reports(s, lines), CompletingLines(s, lines);
    forall j: nat | CompletedBy(s, lines, j)
      ensures Run(s, lines[..j]) in r
    {
      var k :| 0 <= k < |js| && js[k] == j;
      assert r[k] == Run(s, lines[..j]);
    }
    forall x | x in r
      ensures exists j: nat :: CompletedBy(s, lines, j) && x == Run(s, lines[..j])
    {
      var k :| 0 <= k < |r| && r[k] == x;
      assert CompletedBy(s, lines, js[k]) && x == Run(s, lines[..js[k]]);
    }
  }

  /** A line of test output that opens an assertion. */
  predicate OpensAssertion(line: string) {
    match MatchLine(line)
    case None => false
    case Some(l) => StartsWith(l.tag, TestTag) && StartsWith(l.contents, AssertionStart)
  }

  function CountOpenings(lines: seq<string>): nat
    decreases |lines|
  {
    if |lines| == 0 then 0 else (if OpensAssertion(lines[0]) then 1 else 0) + CountOpenings(lines[1..])
  }

  /** Whether the parser holds an assertion that has been opened but not yet reported: one being
      collected, or one the line stored in a complete state will open. */
  function InFlight(s: ParserState): nat {
    match s
    case StartState => 0
    case AssertionState(_) => 1
    case TracebackState(_, _) => 1
    case CompleteState(_, _, next) => if StartsWith(next, AssertionStart) then 1 else 0
  }

  /** One line of test output completes at most one assertion, and only one that was in flight. */
  lemma ProcessAccounts(s: ParserState, c: string)
    ensures var t := ProcessContents(s, c);
      (if !IsComplete(s) && IsComplete(t) then 1 else 0) + InFlight(t)
        <= InFlight(s) + (if StartsWith(c, AssertionStart) then 1 else 0)
  {
    if s.CompleteState? {
      var first := ProcessContents(StartState, s.nextContents);
      assert ProcessContents(s, c) == ProcessContents(first, c);
      assert InFlight(first) == InFlight(s);
    }
  }

  lemma StepAccounts(s: ParserState, line: string)
    ensures var t := Step(s, line);
      (if !IsComplete(s) && IsComplete(t) then 1 else 0) + InFlight(t)
        <= InFlight(s) + (if OpensAssertion(line) then 1 else 0)
  {
    StepChangesOnlyOnTestLines(s, line);
    if Step(s, line) != s {
      var l := MatchLine(line).value;
      ProcessAccounts(s, l.contents);
    }
  }

  /** The corrected loop reports no more assertions than the log opens. */
  lemma {:induction false} ReportsBounded(s: ParserState, lines: seq<string>)
    ensures |Reports(s, lines)| + InFlight(Run(s, lines)) <= InFlight(s) + CountOpenings(lines)
    decreases |lines|
  {
    if |lines| > 0 {
      StepAccounts(s, lines[0]);
      ReportsBounded(Step(s, lines[0]), lines[1..]);
    }
  }

  lemma ReportsAtMostOpenings(lines: seq<string>)
    ensures |Reports(StartState, lines)| <= CountOpenings(lines)
  {
    ReportsBounded(StartState, lines);
  }

  /** The text `readline` returns for a log line. */
  function ReadLine(l: LogLine): string {
    LineText(l) + "\n"
  }

  /** A `js_test` line that opens an assertion starts collecting what follows the opening words. */
  lemma OpeningStep(testTag: string, message: string)
    requires StartsWith(testTag, TestTag) && WellFormedLine(LogLine(testTag, AssertionStart + message))
    ensures Step(StartState, ReadLine(LogLine(testTag, AssertionStart + message))) == AssertionState([message])
  {
    var l := LogLine(testTag, AssertionStart + message);
    StepOnLogLine(StartState, l);
    assert StartsWith(l.contents, AssertionStart) && l.contents[|AssertionStart|..] == message;
  }

  lemma FrameStep(testTag: string, message: string, trace: string)
    requires StartsWith(testTag, TestTag) && WellFormedLine(LogLine(testTag, trace)) && IsTrace(trace)
    ensures Step(AssertionState([message]), ReadLine(LogLine(testTag, trace))) == TracebackState([message], [trace])
  {
    StepOnLogLine(AssertionState([message]), LogLine(testTag, trace));
  }

  lemma EndingStep(testTag: string, message: string, trace: string, ending: string)
    requires StartsWith(testTag, TestTag) && WellFormedLine(LogLine(testTag, ending)) && !IsTrace(ending)
    ensures Step(TracebackState([message], [trace]), ReadLine(LogLine(testTag, ending))) == CompleteState(message, [trace], ending)
  {
    StepOnLogLine(TracebackState([message], [trace]), LogLine(testTag, ending));
    assert Concat([message]) == message;
  }

  lemma ServerStep(s: ParserState, serverTag: string, serverText: string)
    requires !StartsWith(serverTag, TestTag) && WellFormedLine(LogLine(serverTag, serverText))
    ensures Step(s, ReadLine(LogLine(serverTag, serverText))) == s
  {
    StepOnLogLine(s, LogLine(serverTag, serverText));
  }

  /** Text without a space never opens an assertion: the opening words hold one. */
  lemma NoSpaceOpensNothing(t: string)
    requires forall i :: 0 <= i < |t| ==> t[i] != ' '
    ensures !StartsWith(t, AssertionStart)
  {
    if |t| > 8 {
      assert t[8] != ' ';
    }
  }

  /** A trace frame never opens an assertion. */
  lemma TraceOpensNothing(trace: string)
    requires IsTrace(trace)
    ensures !StartsWith(trace, AssertionStart)
  {
    TraceHasNoSpace(trace);
    NoSpaceOpensNothing(trace);
  }

  /** Which lines of a log open an assertion. */
  lemma OpeningOfLogLine(l: LogLine)
    requires WellFormedLine(l)
    ensures OpensAssertion(ReadLine(l)) <==> StartsWith(l.tag, TestTag) && StartsWith(l.contents, AssertionStart)
  {
    MatchLineComplete(l);
  }

  lemma AsWrittenCons(s: ParserState, line: string, rest: seq<string>)
    ensures ReportsAsWritten(s, [line] + rest)
      == (if IsComplete(Step(s, line)) then [Step(s, line)] else []) + ReportsAsWritten(Step(s, line), rest)
  {
    assert ([line] + rest)[1..] == rest;
  }

  lemma ReportsCons(s: ParserState, line: string, rest: seq<string>)
    ensures Reports(s, [line] + rest)
      == (if !IsComplete(s) && IsComplete(Step(s, line)) then [Step(s, line)] else []) + Reports(Step(s, line), rest)
  {
    assert ([line] + rest)[1..] == rest;
  }

  lemma OpeningsCons(line: string, rest: seq<string>)
    ensures CountOpenings([line] + rest) == (if OpensAssertion(line) then 1 else 0) + CountOpenings(rest)
  {
    assert ([line] + rest)[1..] == rest;
  }

  /** Four lines as `[x1] + ([x2] + ([x3] + [x4]))`. */
  lemma FourLines(x1: string, x2: string, x3: string, x4: string)
    ensures [x1, x2, x3, x4] == [x1] + ([x2] + ([x3] + [x4]))
  {
  }

  /** The parser states along a four-line run that opens an assertion, collects one frame,
      completes on the third line and ignores the fourth. */
  predicate FourLineSteps(x1: string, x2: string, x3: string, x4: string, message: string, trace: string, ending: string) {
    && Step(StartState, x1) == AssertionState([message])
    && Step(AssertionState([message]), x2) == TracebackState([message], [trace])
    && Step(TracebackState([message], [trace]), x3) == CompleteState(message, [trace], ending)
    && Step(CompleteState(message, [trace], ending), x4) == CompleteState(message, [trace], ending)
  }

  lemma LastTwoAsWritten(x3: string, x4: string, s2: ParserState, done: ParserState)
    requires IsComplete(done) && Step(s2, x3) == done && Step(done, x4) == done
    ensures ReportsAsWritten(s2, [x3] + [x4]) == [done, done]
  {
    AsWrittenCons(done, x4, []);
    assert [x4] + [] == [x4];
    AsWrittenCons(s2, x3, [x4]);
  }

  lemma FirstTwoAsWritten(x1: string, x2: string, rest: seq<string>, s1: ParserState, s2: ParserState, r: seq<ParserState>)
    requires !IsComplete(s1) && !IsComplete(s2)
    requires Step(StartState, x1) == s1 && Step(s1, x2) == s2 && ReportsAsWritten(s2, rest) == r
    ensures ReportsAsWritten(StartState, [x1] + ([x2] + rest)) == r
  {
    AsWrittenCons(s1, x2, rest);
    AsWrittenCons(StartState, x1, [x2] + rest);
  }

  lemma FourLineAsWritten(x1: string, x2: string, x3: string, x4: string, message: string, trace: string, ending: string)
    requires FourLineSteps(x1, x2, x3, x4, message, trace, ending)
    ensures var done := CompleteState(message, [trace], ending);
      ReportsAsWritten(StartState, [x1, x2, x3, x4]) == [done, done]
  {
    var done := CompleteState(message, [trace], ending);
    var s2 := TracebackState([message], [trace]);
    LastTwoAsWritten(x3, x4, s2, done);
    FirstTwoAsWritten(x1, x2, [x3] + [x4], AssertionState([message]), s2, [done, done]);
    FourLines(x1, x2, x3, x4);
  }

  lemma FourLineReports(x1: string, x2: string, x3: string, x4: string, message: string, trace: string, ending: string)
    requires FourLineSteps(x1, x2, x3, x4, message, trace, ending)
    ensures Reports(StartState, [x1, x2, x3, x4]) == [CompleteState(message, [trace], ending)]
  {
    var done := CompleteState(message, [trace], ending);
    FourLines(x1, x2, x3, x4);
    assert [x4] + [] == [x4];
    ReportsCons(done, x4, []);
    ReportsCons(TracebackState([message], [trace]), x3, [x4]);
    ReportsCons(AssertionState([message]), x2, [x3] + [x4]);
    ReportsCons(StartState, x1, [x2] + ([x3] + [x4]));
  }

  lemma FourLineOpenings(x1: string, x2: string, x3: string, x4: string)
    requires OpensAssertion(x1) && !OpensAssertion(x2) && !OpensAssertion(x3) && !OpensAssertion(x4)
    ensures CountOpenings([x1, x2, x3, x4]) == 1
  {
    FourLines(x1, x2, x3, x4);
    assert [x4] + [] == [x4];
    OpeningsCons(x4, []);
    OpeningsCons(x3, [x4]);
    OpeningsCons(x2, [x3] + [x4]);
    OpeningsCons(x1, [x2] + ([x3] + [x4]));
  }

  /** Any assertion with a one-frame traceback, ended by a line of test output and followed by a
      server log line, is reported twice by the loop as written and once by the corrected loop,
      though the log opens one assertion. */
  lemma ServerLineRepeatsReport(testTag: string, message: string, trace: string, ending: string, serverTag: string, serverText: string)
    requires StartsWith(testTag, TestTag) && !StartsWith(serverTag, TestTag)
    requires WellFormedLine(LogLine(testTag, AssertionStart + message))
    requires WellFormedLine(LogLine(testTag, trace)) && IsTrace(trace)
    requires WellFormedLine(LogLine(testTag, ending)) && !IsTrace(ending) && !StartsWith(ending, AssertionStart)
    requires WellFormedLine(LogLine(serverTag, serverText))
    ensures var lines := [
        ReadLine(LogLine(testTag, AssertionStart + message)), ReadLine(LogLine(testTag, trace)),
        ReadLine(LogLine(testTag, ending)), ReadLine(LogLine(serverTag, serverText))];
      var done := CompleteState(message, [trace], ending);
      && ReportsAsWritten(StartState, lines) == [done, done]
      && Reports(StartState, lines) == [done]
      && CountOpenings(lines) == 1
  {
    OpeningStep(testTag, message);
    FrameStep(testTag, message, trace);
    EndingStep(testTag, message, trace, ending);
    ServerStep(CompleteState(message, [trace], ending), serverTag, serverText);
    assert StartsWith(AssertionStart + message, AssertionStart);
    OpeningOfLogLine(LogLine(testTag, AssertionStart + message));
    TraceOpensNothing(trace);
    OpeningOfLogLine(LogLine(testTag, trace));
    OpeningOfLogLine(LogLine(testTag, ending));
    OpeningOfLogLine(LogLine(serverTag, serverText));
    var x1 := ReadLine(LogLine(testTag, AssertionStart + message));
    var x2 := ReadLine(LogLine(testTag, trace));
    var x3 := ReadLine(LogLine(testTag, ending));
    var x4 := ReadLine(LogLine(serverTag, serverText));
    FourLineAsWritten(x1, x2, x3, x4, message, trace, ending);
    FourLineReports(x1, x2, x3, x4, message, trace, ending);
    FourLineOpenings(x1, x2, x3, x4);
  }

  /** The lines of the example log in `ServerLineExample`. */
  lemma ExampleTags()
    ensures StartsWith("js_test:t", TestTag) && !StartsWith("j0", TestTag)
  {
  }

  lemma ExamplePosition()
    ensures ValidPosition(Position("jstests/a.js", "1", "2"))
    ensures FrameText(None, Position("jstests/a.js", "1", "2")) == "jstests/a.js:1:2"
  {
  }

  lemma ExampleTrace()
    ensures IsTrace("jstests/a.js:1:2")
  {
    ExamplePosition();
    MatchTraceComplete(None, Position("jstests/a.js", "1", "2"));
  }

  lemma ExampleEnding()
    ensures !IsTrace("done") && !StartsWith("done", AssertionStart)
  {
    NotTraceWithoutColon("done");
  }

  lemma ExampleOpening()
    ensures WellFormedLine(LogLine("js_test:t", AssertionStart + " Error: boom :"))
  {
  }

  lemma ExampleLines()
    ensures WellFormedLine(LogLine("js_test:t", "jstests/a.js:1:2"))
    ensures WellFormedLine(LogLine("js_test:t", "done"))
    ensures WellFormedLine(LogLine("j0", "server"))
  {
  }

  /** The log
        [js_test:t] uncaught exception: Error: boom :
        [js_test:t] jstests/a.js:1:2
        [js_test:t] done
        [j0] server
      makes the loop as written report its one assertion twice. */
  lemma ServerLineExample()
    ensures var lines := [
        ReadLine(LogLine("js_test:t", AssertionStart + " Error: boom :")),
        ReadLine(LogLine("js_test:t", "jstests/a.js:1:2")),
        ReadLine(LogLine("js_test:t", "done")),
        ReadLine(LogLine("j0", "server"))];
      var done := CompleteState(" Error: boom :", ["jstests/a.js:1:2"], "done");
      && ReportsAsWritten(StartState, lines) == [done, done]
      && Reports(StartState, lines) == [done]
  {
    ExampleTags();
    ExampleTrace();
    ExampleEnding();
    ExampleOpening();
    ExampleLines();
    ServerLineRepeatsReport("js_test:t", " Error: boom :", "jstests/a.js:1:2", "done", "j0", "server");
  }

  /** The line printed before and after the summary. */
  const Ruler: string := "----"

  /** What `--summary` prints: the reports between two rulers, each `print` ending its line. */
  function Summary(reports: seq<string>): string {
    Ruler + "\n" + JoinWith("\n", reports) + "\n" + Ruler + "\n"
  }

  lemma SplitRuler()
    ensures Split(Ruler, '\n') == [Ruler]
    ensures Split("", '\n') == [""]
  {
    IndexOfFirst(Ruler, '\n', 4);
    IndexOfFirst("", '\n', 0);
  }

  /** The summary regrouped around its three line breaks. */
  lemma SummaryShape(reports: seq<string>)
    ensures Summary(reports) == Ruler + ['\n'] + (JoinWith("\n", reports) + ['\n'] + (Ruler + ['\n'] + ""))
  {
  }

  /** Read back line by line, the summary is the two rulers around the reports (an empty line when
      there are none), followed by the empty text after the final newline. */
  lemma SummaryLines(reports: seq<string>)
    requires forall k :: 0 <= k < |reports| ==> '\n' !in reports[k]
    ensures Split(Summary(reports), '\n') == [Ruler] + (if |reports| == 0 then [""] else reports) + [Ruler, ""]
  {
    var body := JoinWith("\n", reports);
    var tail := Ruler + ['\n'] + "";
    SummaryShape(reports);
    SplitRuler();
    SplitAround(Ruler, '\n', body + ['\n'] + tail);
    SplitAround(body, '\n', tail);
    SplitAround(Ruler, '\n', "");
    assert Split(tail, '\n') == [Ruler, ""];
    if |reports| == 0 {
      assert body == "";
    } else {
      SplitJoin('\n', reports);
    }
  }

  /** What the two log readers collect: `process_resmoke` keeps the assertion objects that `get`
      returns, `process_unittest` keeps formatted strings. */
  datatype Collected = Str(text: string) | Obj(assertion: Assertion)

  /** The index of the first collected item that is not a string, or the length when all are. */
  function FirstObject(items: seq<Collected>): (k: nat)
    ensures k <= |items|
    ensures k < |items| ==> items[k].Obj?
    ensures forall j :: 0 <= j < k ==> items[j].Str?
  {
    if |items| == 0 || items[0].Obj? then 0 else 1 + FirstObject(items[1..])
  }

  function Texts(items: seq<Collected>): (r: seq<string>)
    requires forall k :: 0 <= k < |items| ==> items[k].Str?
  {
    seq(|items|, k requires 0 <= k < |items| => items[k].text)
  }

  /** The summary as written: `"\n".join` raises `TypeError` at the first item that is not a
      string, so only a list of strings is printed. */
  function SummaryAsWritten(items: seq<Collected>): (r: Result<string, nat>)
    ensures r.Failure? <==> exists k :: 0 <= k < |items| && items[k].Obj?
    ensures r.Failure? ==> r.error < |items| && items[r.error].Obj? && forall j :: 0 <= j < r.error ==> items[j].Str?
  {
    var k := FirstObject(items);
    if k < |items| then Failure(k) else Success(Summary(Texts(items)))
  }

  /** What `process_resmoke` returns for the given reports. */
  function Collect(reports: seq<Assertion>): (r: seq<Collected>) {
    seq(|reports|, k requires 0 <= k < |reports| => Obj(reports[k]))
  }

  /** A resmoke run that found any assertion raises when it prints its summary, at the very
      first report; only a run with no report gets its two rulers printed. */
  lemma ResmokeSummaryCrashes(reports: seq<Assertion>)
    ensures |reports| > 0 <==> SummaryAsWritten(Collect(reports)) == Failure(0)
    ensures |reports| == 0 <==> SummaryAsWritten(Collect(reports)) == Success(Summary([]))
  {
    if |reports| > 0 {
      assert Collect(reports)[0].Obj?;
    } else {
      assert Texts(Collect(reports)) == [];
    }
  }

  /** The `str` of each report. */
  function Rendered(reports: seq<Assertion>, printer: Printer): (r: seq<string>) {
    seq(|reports|, k requires 0 <= k < |reports| => AssertionText(reports[k], printer))
  }

  /** The summary with each report turned into its text before the join. */
  function ReportSummary(reports: seq<Assertion>, printer: Printer): string {
    Summary(Rendered(reports, printer))
  }

  /** The corrected summary is the one the original prints for the report texts themselves. */
  lemma ReportSummaryAgrees(reports: seq<Assertion>, printer: Printer)
    ensures var texts := Rendered(reports, printer);
      SummaryAsWritten(seq(|texts|, k requires 0 <= k < |texts| => Str(texts[k]))) == Success(ReportSummary(reports, printer))
  {
    var texts := Rendered(reports, printer);
    var items := seq(|texts|, k requires 0 <= k < |texts| => Str(texts[k]));
    assert FirstObject(items) == |items|;
    assert Texts(items) == texts;
  }

  /** Read back line by line, the corrected summary holds every one-line report, in the order
      the reports were found, between the two rulers. */
  lemma ReportSummaryLines(reports: seq<Assertion>, printer: Printer)
    requires forall k :: 0 <= k < |reports| ==> '\n' !in AssertionText(reports[k], printer)
    ensures var lines := Split(ReportSummary(reports, printer), '\n');
      && |lines| == 3 + (if |reports| == 0 then 1 else |reports|)
      && lines[0] == Ruler && lines[|lines| - 2] == Ruler && lines[|lines| - 1] == ""
      && forall k :: 0 <= k < |reports| ==> lines[k + 1] == AssertionText(reports[k], printer)
  {
    var texts := Rendered(reports, printer);
    SummaryLines(texts);
  }
}
