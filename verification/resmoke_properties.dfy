/** Properties of the resmoke parser: which lines it reacts to, how a completed assertion hands
    over to the next one, and the shape of what it has collected at every point of a run. */
module ResmokeProperties {
  import opened Results
  import opened Text
  import opened LogPatterns
  import opened Assertions
  import opened Resmoke

  /** A log line reaches the state machine exactly when its tag starts with `js_test`, with or
      without the newline `readline` leaves on it; every other log line leaves the state as it is. */
  lemma StepOnLogLine(s: ParserState, l: LogLine)
    requires WellFormedLine(l)
    ensures Step(s, LineText(l)) == (if StartsWith(l.tag, TestTag) then ProcessContents(s, l.contents) else s)
    ensures Step(s, LineText(l) + "\n") == Step(s, LineText(l))
  {
    MatchLineComplete(l);
  }

  /** The complete state replays its stored line through a fresh start state. */
  lemma CompleteReplay(raw: string, traceback: seq<string>, next: string, c: string)
    ensures ProcessContents(CompleteState(raw, traceback, next), c) == ProcessContents(ProcessContents(StartState, next), c)
  {
  }

  lemma ReplayOpening(next: string, c: string)
    requires StartsWith(next, AssertionStart)
    ensures var r := ProcessContents(ProcessContents(StartState, next), c);
      && (IsTrace(c) ==> r == TracebackState([next[|AssertionStart|..]], [c]))
      && (!IsTrace(c) ==> r == AssertionState([next[|AssertionStart|..], Strip(c)]))
  {
    var openedText := next[|AssertionStart|..];
    assert ProcessContents(StartState, next) == AssertionState([openedText]);
    assert [openedText] + [Strip(c)] == [openedText, Strip(c)];
  }

  lemma ReplayOther(next: string, c: string)
    requires !StartsWith(next, AssertionStart)
    ensures ProcessContents(ProcessContents(StartState, next), c) == ProcessContents(StartState, c)
  {
    assert ProcessContents(StartState, next) == StartState;
  }

  /** The line that ended a traceback is not lost: when it opens an assertion, that assertion is
      under way after the next line; otherwise the parser behaves as if it had just started. */
  lemma CompleteReplaysLine(raw: string, traceback: seq<string>, next: string, c: string)
    ensures var r := ProcessContents(CompleteState(raw, traceback, next), c);
      && (StartsWith(next, AssertionStart) && IsTrace(c) ==>
            r == TracebackState([next[|AssertionStart|..]], [c]))
      && (StartsWith(next, AssertionStart) && !IsTrace(c) ==>
            r == AssertionState([next[|AssertionStart|..], Strip(c)]))
      && (!StartsWith(next, AssertionStart) ==> r == ProcessContents(StartState, c))
  {
    CompleteReplay(raw, traceback, next, c);
    if StartsWith(next, AssertionStart) {
      ReplayOpening(next, c);
    } else {
      ReplayOther(next, c);
    }
  }

  /** Every line of `ts` is a trace frame. */
  predicate AllTraces(ts: seq<string>) {
    forall i :: 0 <= i < |ts| ==> IsTrace(ts[i])
  }

  /** Every assertion line after the first is already stripped; the first keeps what followed
      the assertion's opening words. */
  predicate StrippedContinuations(lines: seq<string>) {
    forall i :: 1 <= i < |lines| ==> Strip(lines[i]) == lines[i]
  }

  /** What the parser has collected at any point of a run from the start state. */
  predicate Wellformed(s: ParserState) {
    match s
    case StartState => true
    case AssertionState(lines) => |lines| >= 1 && StrippedContinuations(lines)
    case TracebackState(assertionLines, tracebackLines) =>
      |assertionLines| >= 1 && StrippedContinuations(assertionLines)
      && |tracebackLines| >= 1 && AllTraces(tracebackLines)
    case CompleteState(_, rawTraceback, next) =>
      |rawTraceback| >= 1 && AllTraces(rawTraceback) && !IsTrace(next)
  }

  lemma StrippedAppend(lines: seq<string>, c: string)
    requires StrippedContinuations(lines)
    ensures StrippedContinuations(lines + [Strip(c)])
  {
    var next := lines + [Strip(c)];
    forall i | 1 <= i < |next|
      ensures Strip(next[i]) == next[i]
    {
      if i == |lines| {
        StripIdempotent(c);
      } else {
        assert next[i] == lines[i];
      }
    }
  }

  lemma TracesAppend(ts: seq<string>, c: string)
    requires AllTraces(ts) && IsTrace(c)
    ensures AllTraces(ts + [c])
  {
    var next := ts + [c];
    forall i | 0 <= i < |next|
      ensures IsTrace(next[i])
    {
      if i < |ts| {
        assert next[i] == ts[i];
      }
    }
  }

  lemma AssertionLinePreserves(lines: seq<string>, c: string)
    requires Wellformed(AssertionState(lines))
    ensures Wellformed(ProcessContents(AssertionState(lines), c))
  {
    if !IsTrace(c) {
      StrippedAppend(lines, c);
    }
  }

  lemma TracebackLinePreserves(assertionLines: seq<string>, tracebackLines: seq<string>, c: string)
    requires Wellformed(TracebackState(assertionLines, tracebackLines))
    ensures Wellformed(ProcessContents(TracebackState(assertionLines, tracebackLines), c))
  {
    if IsTrace(c) {
      TracesAppend(tracebackLines, c);
    }
  }

  /** Processing one line of test output keeps the collected lines well formed. */
  lemma ProcessContentsPreserves(s: ParserState, c: string)
    requires Wellformed(s)
    ensures Wellformed(ProcessContents(s, c))
    decreases Rank(s)
  {
    match s {
      case StartState =>
      case AssertionState(lines) =>
        AssertionLinePreserves(lines, c);
      case TracebackState(assertionLines, tracebackLines) =>
        TracebackLinePreserves(assertionLines, tracebackLines, c);
      case CompleteState(_, _, next) =>
        var first := ProcessContents(StartState, next);
        ProcessContentsPreserves(StartState, next);
        ProcessContentsPreserves(first, c);
    }
  }

  /** `step` keeps the collected lines well formed. */
  lemma StepPreserves(s: ParserState, line: string)
    requires Wellformed(s)
    ensures Wellformed(Step(s, line))
  {
    StepChangesOnlyOnTestLines(s, line);
    if Step(s, line) != s {
      ProcessContentsPreserves(s, MatchLine(line).value.contents);
    }
  }

  /** The state after feeding `lines` to `step` one by one, as `process_resmoke` does. */
  function Run(s: ParserState, lines: seq<string>): ParserState
    decreases |lines|
  {
    if |lines| == 0 then s else Run(Step(s, lines[0]), lines[1..])
  }

  lemma {:induction false} RunPreserves(s: ParserState, lines: seq<string>)
    requires Wellformed(s)
    ensures Wellformed(Run(s, lines))
    decreases |lines|
  {
    if |lines| > 0 {
      StepPreserves(s, lines[0]);
      RunPreserves(Step(s, lines[0]), lines[1..]);
    }
  }

  /** Whatever a log holds, `get` on the parser reached from the start state never fails on its
      traceback: every collected frame matched the trace pattern, so `from_traceback` cannot raise,
      and the only errors left are an undecodable equality side or an unmatched assertion text. */
  lemma GetNeverFailsOnTraceback(lines: seq<string>, patterns: Patterns)
    ensures var s := Run(StartState, lines);
      IsComplete(s) ==>
        && FromTraceback(s.rawTraceback).Success?
        && (Get(s, patterns).Failure? ==>
              Get(s, patterns).error.JsonDecodeError? || Get(s, patterns).error == NoPatternMatched(s.rawAssertion))
  {
    RunPreserves(StartState, lines);
  }
}
