/** The resmoke log parser: a finite state machine fed one log line at a time, which collects
    the lines of an uncaught JavaScript assertion and the stack trace after it. */
module Resmoke {
  import opened Results
  import opened Text
  import opened LogPatterns
  import opened Assertions

  /** The text that opens an assertion in a test's output. */
  const AssertionStart: string := "uncaught exception:"

  /** The tag prefix of the lines written by the JavaScript test; other lines are server logs. */
  const TestTag: string := "js_test"

  /** The parser's states. The assertion state keeps the assertion's lines collected so far, the
      traceback state also the trace frames, and the complete state the joined assertion text,
      the frames, and the line that ended the traceback. */
  datatype ParserState =
    | StartState
    | AssertionState(lines: seq<string>)
    | TracebackState(assertionLines: seq<string>, tracebackLines: seq<string>)
    | CompleteState(rawAssertion: string, rawTraceback: seq<string>, nextContents: string)

  /** The complete state is the only one that replays a stored line, so it ranks above the others. */
  function Rank(s: ParserState): nat {
    if s.CompleteState? then 1 else 0
  }

  /** `process` of each state: the state it transitions to, or `None` when it stays where it is.
      The complete state replays its stored line through a fresh start state, then the new line. */
  function Process(s: ParserState, c: string): (r: Option<ParserState>)
    ensures r.Some? && r.value.CompleteState? ==> s.TracebackState? && !IsTrace(c)
    ensures s.CompleteState? ==> r.Some? && !r.value.CompleteState?
    decreases Rank(s), 0
  {
    match s
    case StartState =>
      if StartsWith(c, AssertionStart) then Some(AssertionState([c[|AssertionStart|..]])) else None
    case AssertionState(lines) =>
      if IsTrace(c) then Some(TracebackState(lines, [c])) else None
    case TracebackState(assertionLines, tracebackLines) =>
      if !IsTrace(c) then Some(CompleteState(Concat(assertionLines), tracebackLines, c)) else None
    case CompleteState(_, _, next) =>
      Some(ProcessContents(ProcessContents(StartState, next), c))
  }

  /** What a `process` that returns `None` leaves in place: the assertion state has appended the
      stripped line, the traceback state the line itself. */
  function Remain(s: ParserState, c: string): ParserState {
    match s
    case AssertionState(lines) => AssertionState(lines + [Strip(c)])
    case TracebackState(assertionLines, tracebackLines) => TracebackState(assertionLines, tracebackLines + [c])
    case _ => s
  }

  /** `BaseState.process_contents`: the state after one line of test output. */
  function ProcessContents(s: ParserState, c: string): (r: ParserState)
    ensures r.CompleteState? ==> s.TracebackState? && !IsTrace(c) && r.nextContents == c
    ensures s.StartState? ==> r.StartState? || r.AssertionState?
    ensures s.StartState? ==> (r.AssertionState? <==> StartsWith(c, AssertionStart))
    ensures s.StartState? && r.AssertionState? ==> |r.lines| == 1 && AssertionStart + r.lines[0] == c
    ensures s.AssertionState? ==> (r.TracebackState? <==> IsTrace(c)) && (r.AssertionState? <==> !IsTrace(c))
    ensures s.AssertionState? && r.TracebackState? ==> r.assertionLines == s.lines && r.tracebackLines == [c]
    ensures s.AssertionState? && r.AssertionState? ==> r.lines == s.lines + [Strip(c)]
    ensures s.TracebackState? ==> (r.CompleteState? <==> !IsTrace(c)) && (r.TracebackState? <==> IsTrace(c))
    ensures s.TracebackState? && r.CompleteState? ==>
      r.rawAssertion == Concat(s.assertionLines) && r.rawTraceback == s.tracebackLines
    ensures s.TracebackState? && r.TracebackState? ==>
      r.assertionLines == s.assertionLines && r.tracebackLines == s.tracebackLines + [c]
    ensures s.CompleteState? ==> r.AssertionState? || r.TracebackState? || r.StartState?
    decreases Rank(s), 1
  {
    match Process(s, c)
    case None => Remain(s, c)
    case Some(t) => t
  }

  /** `BaseState.step`: a log line that is not `[tag] contents` or whose tag does not start with
      `js_test` leaves the state as it is; otherwise its contents are processed. */
  function Step(s: ParserState, line: string): ParserState {
    match MatchLine(line)
    case None => s
    case Some(l) => if StartsWith(l.tag, TestTag) then ProcessContents(s, l.contents) else s
  }

  /** A step that changes the state processed the contents of a `js_test` line. */
  lemma StepChangesOnlyOnTestLines(s: ParserState, line: string)
    ensures Step(s, line) != s ==>
      && MatchLine(line).Some? && StartsWith(MatchLine(line).value.tag, TestTag)
      && Step(s, line) == ProcessContents(s, MatchLine(line).value.contents)
  {
  }

  predicate IsComplete(s: ParserState) {
    s.CompleteState?
  }

  /** `get`: the assertion a complete state holds, located by the first `jstests` frame of its
      traceback and classified by the first pattern found. On any other state the call raises
      `TypeError`, since `BaseState.get` takes no `self`. The joined assertion text is already a
      single string, which joining again leaves unchanged. */
  function Get(s: ParserState, patterns: Patterns): (r: Result<Assertion, Error>)
    ensures !IsComplete(s) <==> r == Failure(GetWithoutSelf)
    ensures r.Success? ==> FromTraceback(s.rawTraceback) == Success(r.value.position)
    ensures IsComplete(s) && FromTraceback(s.rawTraceback).Failure? ==> r == Failure(FromTraceback(s.rawTraceback).error)
    ensures IsComplete(s) && FromTraceback(s.rawTraceback).Success? ==>
      r == Classify(s.rawAssertion, FromTraceback(s.rawTraceback).value, patterns)
    ensures r.Failure? && IsComplete(s) && FromTraceback(s.rawTraceback).Success? ==>
      r.error.JsonDecodeError? || r.error == NoPatternMatched(s.rawAssertion)
  {
    if !IsComplete(s) then Failure(GetWithoutSelf)
    else
      match FromTraceback(s.rawTraceback)
      case Failure(e) => Failure(e)
      case Success(pos) => Classify(s.rawAssertion, pos, patterns)
  }

  /** `get` tries the kinds in the order `Inequality`, `JSError`, `Assertion`: what it returns is
      of the first kind whose pattern is found in the joined assertion text, and it raises
      `RuntimeError` exactly when no pattern is found there. */
  lemma GetFollowsOrder(s: ParserState, patterns: Patterns)
    requires IsComplete(s) && FromTraceback(s.rawTraceback).Success?
    ensures Get(s, patterns).Success? ==>
      FirstFound(AssertOrder, s.rawAssertion, patterns) == Some(KindOfAssertion(Get(s, patterns).value))
    ensures Get(s, patterns) == Failure(NoPatternMatched(s.rawAssertion)) <==>
      FirstFound(AssertOrder, s.rawAssertion, patterns).None?
  {
    ClassifyFollowsOrder(s.rawAssertion, FromTraceback(s.rawTraceback).value, patterns);
  }
}
