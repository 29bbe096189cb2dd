/** The two regular expressions the resmoke parser relies on, as hand-written recognisers:
    `LINE_PATTERN`, which splits a log line into its bracketed tag and its contents, and
    `FILE_TRACE_PATTERN`, which recognises one stack-trace frame `[function@]file:line:column`.
    The character classes `\w` and `\d` are taken as ASCII. */
module LogPatterns {
  import opened Results
  import opened Text

  /** A log line split by `LINE_PATTERN`: group 1 is the tag, group 2 the contents. */
  datatype LogLine = LogLine(tag: string, contents: string)

  /** A source position; all three parts stay text, as in the tool. */
  datatype Position = Position(file: string, line: string, column: string)

  predicate Every(s: string, p: char -> bool) {
    forall i :: 0 <= i < |s| ==> p(s[i])
  }

  /** `[\w:]`, the characters of a tag. */
  predicate IsTagChar(c: char) { IsWordChar(c) || c == ':' }

  /** `[\w\.\/]`, the characters of a file path in a trace frame. */
  predicate IsFileChar(c: char) { IsWordChar(c) || c == '.' || c == '/' }

  /** `[\w\.]`, the characters of a function name in a trace frame. */
  predicate IsFrameChar(c: char) { IsWordChar(c) || c == '.' }

  /** The text a pattern ending in `$` is matched against: `$` matches at the very end or
      just before one final newline. */
  function DropFinalNewline(s: string): (r: string)
    ensures r == s || r + "\n" == s
  {
    if |s| > 0 && s[|s| - 1] == '\n' then s[..|s| - 1] else s
  }

  /** The end of the longest run of characters satisfying `p` that starts at `i`. */
  function RunEnd(s: string, i: nat, p: char -> bool): (j: nat)
    requires i <= |s|
    ensures i <= j <= |s|
    ensures forall k :: i <= k < j ==> p(s[k])
    ensures j < |s| ==> !p(s[j])
    decreases |s| - i
  {
    if i == |s| || !p(s[i]) then i else RunEnd(s, i + 1, p)
  }

  /** A tag and contents that `LINE_PATTERN` can produce: a non-empty tag of `[\w:]`
      characters and non-empty contents without a newline. */
  predicate WellFormedLine(l: LogLine) {
    |l.tag| > 0 && Every(l.tag, IsTagChar) && |l.contents| > 0 && '\n' !in l.contents
  }

  /** The log line `[tag] contents` that resmoke writes. */
  function LineText(l: LogLine): string {
    "[" + l.tag + "] " + l.contents
  }

  /** `LINE_PATTERN.match(line)`, pattern `^\[([\w:]+)\] (.+)$`. A match is a well-formed tag
      and contents that rebuild the line, up to one final newline. */
  function MatchLine(line: string): (r: Option<LogLine>)
    ensures r.Some? ==> WellFormedLine(r.value)
    ensures r.Some? ==> line == LineText(r.value) || line == LineText(r.value) + "\n"
  {
    var body := DropFinalNewline(line);
    if |body| == 0 || body[0] != '[' then None
    else
      var close := RunEnd(body, 1, IsTagChar);
      if close == 1 || close + 2 >= |body| || body[close] != ']' || body[close + 1] != ' ' then None
      else
        var l := LogLine(body[1..close], body[close + 2..]);
        if '\n' in l.contents then None
        else
          assert body[..1] == "[" && body[close..close + 2] == "] ";
          assert body == body[..1] + body[1..close] + body[close..close + 2] + body[close + 2..];
          Some(l)
  }

  /** Every well-formed line is recognised, with or without its final newline: together with
      the contract of `MatchLine` this makes the recogniser exactly the inverse of `LineText`. */
  lemma MatchLineComplete(l: LogLine)
    requires WellFormedLine(l)
    ensures MatchLine(LineText(l)) == Some(l)
    ensures MatchLine(LineText(l) + "\n") == Some(l)
  {
    var s := LineText(l);
    assert s[|s| - 1] == l.contents[|l.contents| - 1];
    assert DropFinalNewline(s + "\n") == s;
    assert RunEnd(s, 1, IsTagChar) == 1 + |l.tag| by {
      assert forall k :: 1 <= k < 1 + |l.tag| ==> s[k] == l.tag[k - 1];
      assert s[1 + |l.tag|] == ']';
    }
    assert s[1..1 + |l.tag|] == l.tag;
    assert s[1 + |l.tag| + 2..] == l.contents;
  }

  /** A position `FILE_TRACE_PATTERN` can produce: a non-empty path of `[\w./]` characters and
      non-empty digit strings for line and column. */
  predicate ValidPosition(p: Position) {
    && |p.file| > 0 && Every(p.file, IsFileChar)
    && |p.line| > 0 && Every(p.line, IsDigit)
    && |p.column| > 0 && Every(p.column, IsDigit)
  }

  /** `Position.__str__`: `file:line:column`. */
  function PositionText(p: Position): string {
    p.file + ":" + p.line + ":" + p.column
  }

  /** `rest` behind an optional `function@` prefix, whose function name may be empty. */
  function AttachFunction(function_: Option<string>, rest: string): string {
    match function_
    case None => rest
    case Some(f) => f + "@" + rest
  }

  /** A trace frame as the JavaScript shell prints it: an optional `function@` prefix, then
      the position. */
  function FrameText(function_: Option<string>, p: Position): string {
    AttachFunction(function_, PositionText(p))
  }

  predicate ValidFunction(function_: Option<string>) {
    function_.Some? ==> Every(function_.value, IsFrameChar)
  }

  /** Groups 2 to 4 of `FILE_TRACE_PATTERN`: `file:line:column` split at its first two
      colons, none of the parts containing a colon. */
  function SplitPosition(rest: string): (r: Option<Position>)
    ensures r.Some? ==> ValidPosition(r.value) && rest == PositionText(r.value)
  {
    var c1 := IndexOf(rest, ':');
    if c1 == |rest| then None
    else
      var tail := rest[c1 + 1..];
      var c2 := IndexOf(tail, ':');
      if c2 == |tail| then None
      else
        var p := Position(rest[..c1], tail[..c2], tail[c2 + 1..]);
        if ValidPosition(p) then
          assert tail == p.line + [':'] + p.column;
          assert rest == p.file + [':'] + tail;
          Some(p)
        else None
  }

  lemma SplitPositionComplete(p: Position)
    requires ValidPosition(p)
    ensures SplitPosition(PositionText(p)) == Some(p)
  {
    var tail := p.line + ":" + p.column;
    IndexOfSplit(p.file, ':', tail);
    IndexOfSplit(p.line, ':', p.column);
    var rest := PositionText(p);
    assert rest == p.file + [':'] + tail;
    assert tail == p.line + [':'] + p.column;
    assert rest[..|p.file|] == p.file && rest[|p.file| + 1..] == tail;
    assert tail[..|p.line|] == p.line && tail[|p.line| + 1..] == p.column;
  }

  /** A valid position has no `@` in its text. */
  lemma NoAtInPosition(p: Position)
    requires ValidPosition(p)
    ensures forall i :: 0 <= i < |PositionText(p)| ==> PositionText(p)[i] != '@'
  {
    var text := PositionText(p);
    forall i | 0 <= i < |text| ensures text[i] != '@' {
      if i < |p.file| {
        assert text[i] == p.file[i];
      } else if i == |p.file| || i == |p.file| + 1 + |p.line| {
      } else if i < |p.file| + 1 + |p.line| {
        assert text[i] == p.line[i - |p.file| - 1];
      } else {
        assert text[i] == p.column[i - |p.file| - 2 - |p.line|];
      }
    }
  }

  /** Group 1 of `FILE_TRACE_PATTERN`: the optional `[\w\.]*@` prefix and the text after it.
      No position character is `@`, so the prefix can only end at the first `@`; when there is
      one and the prefix before it has other characters, the pattern cannot match. */
  function SplitFunction(body: string): (r: Option<(Option<string>, string)>)
    ensures r.Some? ==> ValidFunction(r.value.0) && body == AttachFunction(r.value.0, r.value.1)
  {
    var at := IndexOf(body, '@');
    if at == |body| then Some((None, body))
    else if Every(body[..at], IsFrameChar) then
      assert body == body[..at] + "@" + body[at + 1..];
      Some((Some(body[..at]), body[at + 1..]))
    else None
  }

  lemma SplitFunctionComplete(function_: Option<string>, rest: string)
    requires ValidFunction(function_)
    requires forall i :: 0 <= i < |rest| ==> rest[i] != '@'
    ensures SplitFunction(AttachFunction(function_, rest)) == Some((function_, rest))
  {
    var s := AttachFunction(function_, rest);
    match function_
    case None =>
      IndexOfAbsent(s, '@');
    case Some(f) =>
      IndexOfSplit(f, '@', rest);
      assert s == f + ['@'] + rest;
      assert s[..|f|] == f;
      assert s[|f| + 1..] == rest;
  }

  /** `FILE_TRACE_PATTERN.match(s)`, pattern `^([\w\.]*@)?([\w\.\/]+):(\d+):(\d+)$`, giving
      groups 2, 3 and 4. */
  function MatchTrace(s: string): (r: Option<Position>)
    ensures r.Some? ==> ValidPosition(r.value)
  {
    match SplitFunction(DropFinalNewline(s))
    case None => None
    case Some(split) => SplitPosition(split.1)
  }

  /** Whether a line of contents is a stack-trace frame. */
  predicate IsTrace(s: string) {
    MatchTrace(s).Some?
  }

  /** Whatever `MatchTrace` accepts is a frame: an optional valid function part, then the
      position it returned, up to one final newline. */
  lemma MatchTraceSound(s: string) returns (function_: Option<string>)
    requires MatchTrace(s).Some?
    ensures ValidFunction(function_)
    ensures s == FrameText(function_, MatchTrace(s).value) || s == FrameText(function_, MatchTrace(s).value) + "\n"
  {
    var split := SplitFunction(DropFinalNewline(s)).value;
    function_ := split.0;
  }

  /** Every frame built from a valid function part and a valid position is recognised, with
      or without a final newline, and yields that position. */
  lemma MatchTraceComplete(function_: Option<string>, p: Position)
    requires ValidFunction(function_) && ValidPosition(p)
    ensures MatchTrace(FrameText(function_, p)) == Some(p)
    ensures MatchTrace(FrameText(function_, p) + "\n") == Some(p)
  {
    var s := FrameText(function_, p);
    assert s[|s| - 1] == p.column[|p.column| - 1];
    assert DropFinalNewline(s + "\n") == s;
    NoAtInPosition(p);
    SplitFunctionComplete(function_, PositionText(p));
    SplitPositionComplete(p);
  }

  /** The first occurrence of `c` in `a + [c] + b`, when `a` has none, ends `a`. */
  lemma IndexOfSplit(a: string, c: char, b: string)
    requires forall i :: 0 <= i < |a| ==> a[i] != c
    ensures IndexOf(a + [c] + b, c) == |a|
  {
    var s := a + [c] + b;
    assert s[|a|] == c;
    assert forall j :: 0 <= j < |a| ==> s[j] == a[j];
  }

  lemma IndexOfAbsent(s: string, c: char)
    requires forall i :: 0 <= i < |s| ==> s[i] != c
    ensures IndexOf(s, c) == |s|
  {
  }

  /** Every trace frame has a colon: the one after its file name. */
  lemma TraceHasColon(s: string) returns (i: nat)
    requires IsTrace(s)
    ensures i < |s| && s[i] == ':'
  {
    var function_ := MatchTraceSound(s);
    var p := MatchTrace(s).value;
    var text := PositionText(p);
    var frame := FrameText(function_, p);
    assert text[|p.file|] == ':';
    var lead := |frame| - |text|;
    assert frame[lead..] == text;
    i := lead + |p.file|;
    assert frame[i] == ':';
  }

  /** A line without a colon is not a trace frame. */
  lemma NotTraceWithoutColon(s: string)
    requires forall i :: 0 <= i < |s| ==> s[i] != ':'
    ensures !IsTrace(s)
  {
    if IsTrace(s) {
      var i := TraceHasColon(s);
      assert false;
    }
  }

  /** Every character of a valid position's text is a path character or a colon. */
  lemma PositionChars(p: Position)
    requires ValidPosition(p)
    ensures forall i :: 0 <= i < |PositionText(p)| ==> IsFileChar(PositionText(p)[i]) || PositionText(p)[i] == ':'
  {
    var text := PositionText(p);
    forall i | 0 <= i < |text| ensures IsFileChar(text[i]) || text[i] == ':' {
      if i < |p.file| {
        assert text[i] == p.file[i];
      } else if i == |p.file| || i == |p.file| + 1 + |p.line| {
      } else if i < |p.file| + 1 + |p.line| {
        assert text[i] == p.line[i - |p.file| - 1];
      } else {
        assert text[i] == p.column[i - |p.file| - 2 - |p.line|];
      }
    }
  }

  /** A frame built from a valid function part and a valid position holds no space. */
  lemma FrameHasNoSpace(function_: Option<string>, p: Position)
    requires ValidFunction(function_) && ValidPosition(p)
    ensures forall i :: 0 <= i < |FrameText(function_, p)| ==> FrameText(function_, p)[i] != ' '
  {
    var text := PositionText(p);
    PositionChars(p);
    match function_
    case None =>
    case Some(f) =>
      var frame := f + "@" + text;
      forall i | 0 <= i < |frame| ensures frame[i] != ' ' {
        if i < |f| {
          assert frame[i] == f[i] && IsFrameChar(f[i]);
        } else if i > |f| {
          assert frame[i] == text[i - |f| - 1];
        }
      }
  }

  /** A trace frame holds no space. */
  lemma TraceHasNoSpace(s: string)
    requires IsTrace(s)
    ensures forall i :: 0 <= i < |s| ==> s[i] != ' '
  {
    var function_ := MatchTraceSound(s);
    var frame := FrameText(function_, MatchTrace(s).value);
    FrameHasNoSpace(function_, MatchTrace(s).value);
    forall i | 0 <= i < |s| ensures s[i] != ' ' {
      if i < |frame| {
        assert s[i] == frame[i];
      } else {
        assert s == frame + "\n" && s[i] == '\n';
      }
    }
  }
}
