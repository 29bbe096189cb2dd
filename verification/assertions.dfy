/** The assertion kinds a completed resmoke parse is turned into (`Inequality`, `JSError`,
    `Assertion`), how the position is taken from the traceback, the order in which the kinds
    are tried, and the one-line reports printed for each. */
module Assertions {
  import opened Results
  import opened Text
  import opened JsonDiff
  import opened LogPatterns

  /** The message of an assertion: text, or, for an equality failure, possibly a decoded value. */
  datatype Message = Plain(text: string) | Decoded(value: Json)

  /** The groups of a match of `Inequality.PATTERN`: the two serialised sides and the optional
      `:message` part. */
  datatype InequalityGroups = InequalityGroups(left: string, right: string, message: Option<string>)

  /** The groups of a match of `JSError.PATTERN`: the error type and the message. */
  datatype JSErrorGroups = JSErrorGroups(errorType: string, message: string)

  /** The group of a match of `Assertion.PATTERN`: the message, which may not participate. */
  datatype ErrorGroups = ErrorGroups(message: Option<string>)

  /** The regular-expression searches and the JSON decoder that classification relies on,
      taken as given. `loads` is `json.loads`, `None` where it raises `JSONDecodeError`. */
  datatype Patterns = Patterns(
    inequality: string -> Option<InequalityGroups>,
    jsError: string -> Option<JSErrorGroups>,
    error: string -> Option<ErrorGroups>,
    loads: string -> Option<Json>)

  /** A parsed assertion: `Assertion` (here `Generic`), `JSError` or `Inequality`. The position
      is absent when no frame of the traceback is in a `jstests` file. */
  datatype Assertion =
    | Generic(position: Option<Position>, message: string)
    | JSError(position: Option<Position>, message: string, errorType: string)
    | Inequality(position: Option<Position>, equalityMessage: Message, left: Json, right: Json)

  /** The exceptions the parsing and reporting code can raise. `GetWithoutSelf` is the `TypeError`
      of calling `BaseState.get`, which is declared without `self`. */
  datatype Error =
    | NotATraceback(trace: string)
    | JsonDecodeError(text: string)
    | NoPatternMatched(assertion: string)
    | GetWithoutSelf
    | UnpackNone

  const NoMessage: string := "<no message>"

  /** The directory whose frames locate an assertion. */
  predicate InTests(p: Position) {
    StartsWith(p.file, "jstests")
  }

  /** The frame each traceback line is read as, `None` for a line that is not a frame. */
  function Frames(traces: seq<string>): (fs: seq<Option<Position>>)
    ensures |fs| == |traces| && forall i :: 0 <= i < |traces| ==> fs[i] == MatchTrace(traces[i])
  {
    seq(|traces|, i requires 0 <= i < |traces| => MatchTrace(traces[i]))
  }

  /** A frame `from_traceback` passes over: one outside the `jstests` directory. */
  predicate Passed(frame: Option<Position>) {
    frame.Some? && !InTests(frame.value)
  }

  /** Every frame before index `i` is passed over. */
  predicate PassedBefore(fs: seq<Option<Position>>, i: nat)
    requires i <= |fs|
  {
    forall j :: 0 <= j < i ==> Passed(fs[j])
  }

  /** The index of the first frame from `i` on that is not passed over; `|fs|` when there is none. */
  function StopIndex(fs: seq<Option<Position>>, i: nat): (k: nat)
    requires i <= |fs| && PassedBefore(fs, i)
    ensures i <= k <= |fs| && PassedBefore(fs, k)
    ensures k < |fs| ==> !Passed(fs[k])
    decreases |fs| - i
  {
    if i == |fs| || !Passed(fs[i]) then i
    else StopIndex(fs, i + 1)
  }

  /** `Position.from_traceback`: the position of the first frame in a `jstests` file, `None`
      when there is none, and `ValueError` on the first line before it that is not a frame. */
  function FromTraceback(traces: seq<string>): (r: Result<Option<Position>, Error>)
    ensures (forall i :: 0 <= i < |traces| ==> IsTrace(traces[i])) ==> r.Success?
    ensures r.Success? && r.value.None? ==> PassedBefore(Frames(traces), |traces|)
    ensures r.Success? && r.value.Some? ==>
      exists i :: 0 <= i < |traces| && PassedBefore(Frames(traces), i)
        && MatchTrace(traces[i]) == r.value && InTests(r.value.value)
    ensures r.Failure? ==>
      exists i :: 0 <= i < |traces| && PassedBefore(Frames(traces), i)
        && r.error == NotATraceback(traces[i]) && !IsTrace(traces[i])
  {
    var fs := Frames(traces);
    var k := StopIndex(fs, 0);
    if k == |traces| then Success(None)
    else
      match fs[k]
      case None => Failure(NotATraceback(traces[k]))
      case Some(p) => Success(Some(p))
  }

  /** Python's `m[1:]`. */
  function DropFirst(m: string): string {
    if |m| == 0 then "" else m[1..]
  }

  /** `Inequality.do_parse`: both sides must decode or `JSONDecodeError` is raised; the message
      part, without its leading colon, is decoded when it can be and kept as text otherwise. */
  function InequalityParse(g: InequalityGroups, pos: Option<Position>, loads: string -> Option<Json>): (r: Result<Assertion, Error>)
    ensures r.Success? <==> loads(g.left).Some? && loads(g.right).Some?
    ensures r.Success? ==>
      r.value.Inequality? && r.value.position == pos && r.value.left == loads(g.left).value && r.value.right == loads(g.right).value
    ensures r.Failure? ==> r.error == JsonDecodeError(if loads(g.left).None? then g.left else g.right)
    ensures r.Success? && g.message.None? ==> r.value.equalityMessage == Plain(NoMessage)
    ensures r.Success? && g.message.Some? && loads(DropFirst(g.message.value)).None? ==>
      r.value.equalityMessage == Plain(DropFirst(g.message.value))
    ensures r.Success? && g.message.Some? && loads(DropFirst(g.message.value)).Some? ==>
      r.value.equalityMessage == Decoded(loads(DropFirst(g.message.value)).value)
  {
    match loads(g.left)
    case None => Failure(JsonDecodeError(g.left))
    case Some(left) =>
      match loads(g.right)
      case None => Failure(JsonDecodeError(g.right))
      case Some(right) =>
        var message :=
          match g.message
          case None => Plain(NoMessage)
          case Some(m) =>
            match loads(DropFirst(m))
            case Some(v) => Decoded(v)
            case None => Plain(DropFirst(m));
        Success(Inequality(pos, message, left, right))
  }

  /** The assertion kinds, in the order `CompleteState.get` tries them. */
  datatype AssertKind = InequalityKind | JSErrorKind | GenericKind

  const AssertOrder: seq<AssertKind> := [InequalityKind, JSErrorKind, GenericKind]

  function KindOfAssertion(a: Assertion): AssertKind {
    match a
    case Inequality(_, _, _, _) => InequalityKind
    case JSError(_, _, _) => JSErrorKind
    case Generic(_, _) => GenericKind
  }

  /** Whether the pattern of a kind is found in the assertion text. */
  predicate PatternFound(k: AssertKind, s: string, patterns: Patterns) {
    match k
    case InequalityKind => patterns.inequality(s).Some?
    case JSErrorKind => patterns.jsError(s).Some?
    case GenericKind => patterns.error(s).Some?
  }

  /** The first kind of `order` whose pattern is found: a reference for the dispatch order. */
  function FirstFound(order: seq<AssertKind>, s: string, patterns: Patterns): (r: Option<AssertKind>)
    ensures r.Some? ==> r.value in order && PatternFound(r.value, s, patterns)
    ensures r.None? <==> forall k :: k in order ==> !PatternFound(k, s, patterns)
    ensures r.Some? ==>
      exists i :: 0 <= i < |order| && order[i] == r.value && forall j :: 0 <= j < i ==> !PatternFound(order[j], s, patterns)
  {
    if |order| == 0 then None
    else if PatternFound(order[0], s, patterns) then Some(order[0])
    else
      assert forall k :: k in order ==> k == order[0] || k in order[1..];
      var r := FirstFound(order[1..], s, patterns);
      if r.Some? then
        var i :| 0 <= i < |order[1..]| && order[1..][i] == r.value
          && forall j :: 0 <= j < i ==> !PatternFound(order[1..][j], s, patterns);
        assert order[i + 1] == r.value;
        assert forall j :: 0 <= j < i + 1 ==> !PatternFound(order[j], s, patterns) by {
          forall j | 0 <= j < i + 1 ensures !PatternFound(order[j], s, patterns) {
            if j > 0 {
              assert order[j] == order[1..][j - 1];
            }
          }
        }
        r
      else r
  }

  /** The loop of `CompleteState.get` over `[Inequality, JSError, Assertion]`: the first class
      whose pattern is found parses the text; `RuntimeError` when none is found. */
  function Classify(s: string, pos: Option<Position>, patterns: Patterns): (r: Result<Assertion, Error>)
    ensures r.Success? ==> r.value.position == pos
    ensures r.Failure? ==> r.error.JsonDecodeError? || r.error == NoPatternMatched(s)
    ensures patterns.inequality(s).Some? ==> r == InequalityParse(patterns.inequality(s).value, pos, patterns.loads)
    ensures r.Failure? && r.error.JsonDecodeError? ==> patterns.inequality(s).Some?
    ensures r.Success? && r.value.Generic? ==>
      patterns.error(s).Some? && r.value.message == patterns.error(s).value.message.GetOr(NoMessage)
    ensures r.Success? && r.value.JSError? ==>
      patterns.jsError(s).Some? && r.value.message == patterns.jsError(s).value.message && r.value.errorType == patterns.jsError(s).value.errorType
  {
    match patterns.inequality(s)
    case Some(g) => InequalityParse(g, pos, patterns.loads)
    case None =>
      match patterns.jsError(s)
      case Some(g) => Success(JSError(pos, g.message, g.errorType))
      case None =>
        match patterns.error(s)
        case Some(g) => Success(Generic(pos, g.message.GetOr(NoMessage)))
        case None => Failure(NoPatternMatched(s))
  }

  /** Classification follows the dispatch order: a parsed assertion is of the first kind whose
      pattern is found, `RuntimeError` is raised exactly when no pattern is found, and a
      later kind is never tried once an earlier one is found, even when that one raises. */
  lemma ClassifyFollowsOrder(s: string, pos: Option<Position>, patterns: Patterns)
    ensures Classify(s, pos, patterns).Success? ==>
      FirstFound(AssertOrder, s, patterns) == Some(KindOfAssertion(Classify(s, pos, patterns).value))
    ensures Classify(s, pos, patterns) == Failure(NoPatternMatched(s)) <==> FirstFound(AssertOrder, s, patterns).None?
    ensures Classify(s, pos, patterns).Failure? ==>
      FirstFound(AssertOrder, s, patterns) != Some(JSErrorKind) && FirstFound(AssertOrder, s, patterns) != Some(GenericKind)
  {
    var rest := [JSErrorKind, GenericKind];
    assert AssertOrder[1..] == rest;
    assert rest[1..] == [GenericKind];
    assert [GenericKind][1..] == [];
    if patterns.inequality(s).Some? {
      assert FirstFound(AssertOrder, s, patterns) == Some(InequalityKind);
    } else if patterns.jsError(s).Some? {
      assert FirstFound(AssertOrder, s, patterns) == FirstFound(rest, s, patterns) == Some(JSErrorKind);
    } else if patterns.error(s).Some? {
      assert FirstFound(rest, s, patterns) == FirstFound([GenericKind], s, patterns) == Some(GenericKind);
    } else {
      assert FirstFound([GenericKind], s, patterns) == FirstFound([], s, patterns) == None;
    }
  }

  /** What `f"{pos}"` prints for a position that may be `None`. */
  function LocationText(pos: Option<Position>): string {
    match pos
    case None => "None"
    case Some(p) => PositionText(p)
  }

  /** `json.dumps` and Python's `str` of a decoded value, taken as given. */
  datatype Printer = Printer(dumps: Json -> string, str: Json -> string)

  function MessageText(m: Message, printer: Printer): string {
    match m
    case Plain(t) => t
    case Decoded(v) => printer.str(v)
  }

  /** The head every report line shares: `f"{pos}: {severity}: "`. */
  function Lead(pos: Option<Position>, severity: string): string {
    LocationText(pos) + (": " + severity + ": ")
  }

  /** The first line of `Inequality.__str__`. */
  function InequalityHeadline(pos: Option<Position>, m: Message, left: Json, right: Json, printer: Printer): string {
    Lead(pos, "error")
      + ("assert equals failed: " + MessageText(m, printer) + ": " + printer.dumps(left) + " != " + printer.dumps(right))
  }

  /** The lines of `Inequality.__str__` that show the diff of the two sides. */
  function DiffBlock(sides: Sides, printer: Printer): string {
    "\nDiff:\nLeft:" + printer.dumps(sides.0) + "\nRight:" + printer.dumps(sides.1)
  }

  /** `Inequality.__str__` as written: unpacking `diff(left, right)` raises `TypeError` when
      the two sides are equal, because `diff` then returns `None`. */
  function InequalityTextAsWritten(pos: Option<Position>, m: Message, left: Json, right: Json, printer: Printer): (r: Result<string, Error>)
    ensures r.Failure? <==> left == right
  {
    match Diff(left, right)
    case None => Failure(UnpackNone)
    case Some(sides) => Success(InequalityHeadline(pos, m, left, right, printer) + DiffBlock(sides, printer))
  }

  /** `Inequality.__str__` with the crash removed: the diff block is printed when the two sides
      differ and left out when they are equal. */
  function InequalityText(pos: Option<Position>, m: Message, left: Json, right: Json, printer: Printer): (r: string)
    ensures StartsWith(r, InequalityHeadline(pos, m, left, right, printer))
    ensures left == right <==> r == InequalityHeadline(pos, m, left, right, printer)
  {
    var headline := InequalityHeadline(pos, m, left, right, printer);
    match Diff(left, right)
    case None => headline
    case Some(sides) =>
      StartsWithConcat(headline, DiffBlock(sides, printer));
      headline + DiffBlock(sides, printer)
  }

  /** The corrected report agrees with the original wherever the original does not crash. */
  lemma InequalityTextRefines(pos: Option<Position>, m: Message, left: Json, right: Json, printer: Printer)
    ensures InequalityTextAsWritten(pos, m, left, right, printer).Success? ==>
      InequalityText(pos, m, left, right, printer) == InequalityTextAsWritten(pos, m, left, right, printer).value
  {
  }

  /** Two objects that differ only in the order of their keys decode to the same value, so the
      report of `Error: {"a":1,"b":2} != {"b":2,"a":1} are not equal :` crashes as written. */
  lemma KeyOrderCrashesReport(pos: Option<Position>, printer: Printer)
    ensures var decodedLeft := JObject(map["a" := JInt(1), "b" := JInt(2)]);
            var decodedRight := JObject(map["b" := JInt(2), "a" := JInt(1)]);
            InequalityTextAsWritten(pos, Plain(NoMessage), decodedLeft, decodedRight, printer) == Failure(UnpackNone)
  {
    assert map["a" := JInt(1), "b" := JInt(2)] == map["b" := JInt(2), "a" := JInt(1)];
  }

  /** Severity words of the report line, read by an editor's problem matcher. */
  function Severity(a: Assertion): string {
    if a.JSError? then "warning" else "error"
  }

  /** `__str__` of each kind: `position: error: message` for `Assertion`,
      `position: warning: type: message` for `JSError`, and the corrected `Inequality` report. */
  function AssertionText(a: Assertion, printer: Printer): string {
    match a
    case Generic(pos, msg) => Lead(pos, "error") + msg
    case JSError(pos, msg, errorType) => Lead(pos, "warning") + errorType + ": " + msg
    case Inequality(pos, m, left, right) => InequalityText(pos, m, left, right, printer)
  }

  /** A string that starts with `lead` is `lead` followed by the rest. */
  lemma SplitAfter(r: string, lead: string) returns (rest: string)
    requires StartsWith(r, lead)
    ensures r == lead + rest
  {
    rest := r[|lead|..];
    assert r == r[..|lead|] + rest;
  }

  /** The `Inequality` report starts with the shared head. */
  lemma InequalityLead(pos: Option<Position>, m: Message, left: Json, right: Json, printer: Printer)
    ensures StartsWith(InequalityText(pos, m, left, right, printer), Lead(pos, "error"))
  {
    var h := InequalityHeadline(pos, m, left, right, printer);
    StartsWithConcat(Lead(pos, "error"),
      "assert equals failed: " + MessageText(m, printer) + ": " + printer.dumps(left) + " != " + printer.dumps(right));
    StartsWithTransitive(InequalityText(pos, m, left, right, printer), h, Lead(pos, "error"));
  }

  /** Every report is the position, then the severity word, then the rest. */
  lemma ReportLead(a: Assertion, printer: Printer) returns (rest: string)
    ensures AssertionText(a, printer) == Lead(a.position, Severity(a)) + rest
  {
    var r := AssertionText(a, printer);
    var lead := Lead(a.position, Severity(a));
    match a {
      case Generic(pos, msg) =>
        rest := msg;
      case JSError(pos, msg, errorType) =>
        rest := errorType + ": " + msg;
      case Inequality(pos, m, left, right) =>
        InequalityLead(pos, m, left, right, printer);
        rest := SplitAfter(r, lead);
    }
  }

  /** A report names its position first, as a frame the trace recogniser reads back, followed
      by the severity word: an editor can locate the failing line from the report alone. */
  lemma ReportStartsWithFrame(a: Assertion, printer: Printer)
    requires a.position.Some? && ValidPosition(a.position.value)
    ensures var r := AssertionText(a, printer);
      var k := |PositionText(a.position.value)|;
      k <= |r| && MatchTrace(r[..k]) == a.position && StartsWith(r[k..], ": " + Severity(a) + ": ")
  {
    var p := a.position.value;
    var rest := ReportLead(a, printer);
    var lead := ": " + Severity(a) + ": ";
    var r := PositionText(p) + (lead + rest);
    assert AssertionText(a, printer) == r;
    assert r[..|PositionText(p)|] == PositionText(p);
    assert r[|PositionText(p)|..] == lead + rest;
    StartsWithConcat(lead, rest);
    MatchTraceComplete(None, p);
  }
}
