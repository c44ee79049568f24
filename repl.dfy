/**
 * The interactive terminal loop of `TerminalCommand::startRepl`.
 *
 * Lines are read one at a time and appended, each followed by "\n", to a
 * buffer. After every line a purely textual test decides whether the buffer is
 * still incomplete (an unclosed bracket or an odd quote count); if so the next
 * prompt is the continuation prompt. A complete buffer is trimmed, discarded if
 * blank, otherwise wrapped as `return (...);` when it is a bare expression and
 * handed to the evaluator; the buffer is then cleared.
 *
 * The line source is the sequence `input`: reading past its end is PHP's
 * `readline` returning `false`. The evaluator is a total function of the codes
 * it has already run and the code to run, which stands for the variables that
 * persist in `eval`'s scope. What the loop prints or records is an `Event`.
 */
module Repl {
  import opened Wrappers
  import opened Text

  const SinglePrompt: string := "php> "
  const ContinuationPrompt: string := "php* "

  // ---------------------------------------------------------------------------
  // The completeness test
  // ---------------------------------------------------------------------------

  /** Number of openers minus number of closers, as two `substr_count` calls. */
  function Surplus(s: string, open: char, close: char): int {
    Count(s, open) - Count(s, close)
  }

  /** `substr_count(s, "\\" + q)`: occurrences of a backslash immediately followed by `q`. */
  function CountEscaped(s: string, q: char): nat
    decreases |s|
  {
    if |s| < 2 then 0
    else (if s[0] == '\\' && s[1] == q then 1 else 0) + CountEscaped(s[1..], q)
  }

  /** Every escaped quote owns a quote character that follows the first position. */
  lemma {:induction false} CountEscapedBelowTail(s: string, q: char)
    requires s != []
    ensures CountEscaped(s, q) <= Count(s[1..], q)
    decreases |s|
  {
    if |s| >= 2 {
      CountEscapedBelowTail(s[1..], q);
      assert s[1..][1..] == s[2..];
    }
  }

  /**
   * The quote count of the source: occurrences of `q` minus occurrences of
   * a backslash followed by `q`. It is never negative, so PHP's truncating `%`
   * and Dafny's Euclidean `%` agree on its parity.
   */
  function QuoteCount(s: string, q: char): (n: nat)
    ensures n <= Count(s, q)
  {
    CountEscapedAtMostCount(s, q);
    Count(s, q) - CountEscaped(s, q)
  }

  lemma CountEscapedAtMostCount(s: string, q: char)
    ensures CountEscaped(s, q) <= Count(s, q)
  {
    if s != [] {
      CountEscapedBelowTail(s, q);
    }
  }

  /** The buffer needs more input: an opener outnumbers its closer, or a quote count is odd. */
  predicate Incomplete(buffer: string)
    // only an opener or a quote can keep a buffer open
    ensures Incomplete(buffer) ==>
              || Count(buffer, '{') > 0 || Count(buffer, '[') > 0 || Count(buffer, '(') > 0
              || Count(buffer, '\'') > 0 || Count(buffer, '"') > 0
  {
    || Surplus(buffer, '{', '}') > 0
    || Surplus(buffer, '[', ']') > 0
    || Surplus(buffer, '(', ')') > 0
    || QuoteCount(buffer, '\'') % 2 != 0
    || QuoteCount(buffer, '"') % 2 != 0
  }

  /** Concatenation adds the counts, plus one pair that may straddle the seam. */
  lemma {:induction false} CountEscapedAppend(a: string, b: string, q: char)
    ensures CountEscaped(a + b, q) == CountEscaped(a, q) + CountEscaped(b, q)
              + (if a != [] && b != [] && a[|a| - 1] == '\\' && b[0] == q then 1 else 0)
    decreases |a|
  {
    if a == [] {
      assert a + b == b;
    } else if |a| == 1 {
      if |b| >= 1 {
        assert (a + b)[1..] == b;
      }
    } else {
      assert (a + b)[1..] == a[1..] + b;
      CountEscapedAppend(a[1..], b, q);
    }
  }

  /**
   * Appending a line and its newline adds exactly that line's counts: the
   * whole-buffer test is the sum of independent per-line counts, because a
   * backslash at the end of one line is followed by the newline, never by a
   * quote on the next line.
   */
  lemma AppendLineCounts(buffer: string, line: string)
    requires buffer == [] || buffer[|buffer| - 1] == '\n'
    ensures forall c :: c != '\n' ==> Count(buffer + line + "\n", c) == Count(buffer, c) + Count(line, c)
    ensures forall q :: q != '\\' && q != '\n' ==>
              QuoteCount(buffer + line + "\n", q) == QuoteCount(buffer, q) + QuoteCount(line, q)
  {
    forall c | c != '\n'
      ensures Count(buffer + line + "\n", c) == Count(buffer, c) + Count(line, c)
    {
      CountAppend(buffer, line, c);
      CountAppend(buffer + line, "\n", c);
    }
    forall q | q != '\\' && q != '\n'
      ensures QuoteCount(buffer + line + "\n", q) == QuoteCount(buffer, q) + QuoteCount(line, q)
    {
      CountAppend(buffer, line, q);
      CountAppend(buffer + line, "\n", q);
      CountEscapedAppend(buffer, line, q);
      CountEscapedAppend(buffer + line, "\n", q);
    }
  }

  lemma EmptyBufferIsComplete()
    ensures !Incomplete([])
  {
  }

  /** More closers than openers do not keep the buffer open. */
  lemma NegativeSurplusIsComplete()
    ensures !Incomplete("}\n")
    ensures !Incomplete(")]\n")
  {
    assert Count("}\n", '{') == 0;
    assert Count(")]\n", '(') == 0 && Count(")]\n", '[') == 0;
    assert Count(")]\n", '{') == 0;
  }

  /**
   * The quote test is textual: a literal ending in an escaped backslash,
   * `'a\\'`, counts one escaped quote and is judged unterminated.
   */
  lemma EscapedBackslashKeepsBufferOpen()
    ensures Incomplete("'a\\\\'\n")
  {
    var s := "'a\\\\'\n";
    assert Count(s, '\'') == 2;
    assert CountEscaped(s, '\'') == 1;
  }

  // ---------------------------------------------------------------------------
  // The expression wrap
  // ---------------------------------------------------------------------------

  /** The last character is `;` or `}` (PHP `substr($code, -1)` of "" is "", which is neither). */
  predicate EndsAsStatement(code: string) {
    code != [] && (code[|code| - 1] == ';' || code[|code| - 1] == '}')
  }

  /** A bare expression is wrapped so that `eval` returns its value; a statement passes unchanged. */
  function Wrap(code: string): (r: string)
    ensures EndsAsStatement(r)
    ensures r == code <==> EndsAsStatement(code)
    ensures !EndsAsStatement(code) ==> |r| == |code| + 10 && StartsWith(r, "return (") && EndsWith(r, ");")
                                       && r[8..|r| - 2] == code
  {
    if EndsAsStatement(code) then code else "return (" + code + ");"
  }

  lemma WrapIdempotent(code: string)
    ensures Wrap(Wrap(code)) == Wrap(code)
  {
  }

  // ---------------------------------------------------------------------------
  // The loop as a state machine
  // ---------------------------------------------------------------------------

  /** What the evaluator reports for one unit. */
  datatype Outcome =
    | Returned(value: Option<string>)                      // `None` is PHP null; otherwise its `var_export` text
    | ParseFailure(message: string)                        // a `ParseError` was thrown
    | Thrown(kind: string, message: string, file: string, line: int)  // any other `Throwable`

  type Evaluator = (seq<string>, string) -> Outcome

  /** What the loop shows the user or records, in order. */
  datatype Event =
    | Prompt(text: string)
    | History(entry: string)
    | Evaluate(code: string)
    | Display(text: string)
    | ParseErrorShown(message: string)
    | ErrorShown(kind: string, message: string, file: string, line: int)

  /** The loop's variables `$buffer` and `$inMultiline`, and the units already evaluated. */
  datatype Session = Session(buffer: string, inMultiline: bool, evaluated: seq<string>)

  const Start: Session := Session("", false, [])

  function PromptFor(s: Session): string {
    if s.inMultiline then ContinuationPrompt else SinglePrompt
  }

  /** The loop's variables agree: the continuation prompt is shown exactly while a non-empty buffer is open. */
  predicate Valid(s: Session) {
    s.inMultiline == Incomplete(s.buffer) && (s.inMultiline || s.buffer == [])
  }

  predicate IsExit(line: string) {
    Trim(line) == "exit" || Trim(line) == "quit"
  }

  /** How an outcome is reported; a null result shows nothing. */
  function Report(o: Outcome): (r: seq<Event>)
    ensures r == [] <==> o == Returned(None)
    ensures |r| <= 1
    ensures forall e <- r :: !e.History? && !e.Evaluate? && !e.Prompt?
    ensures forall e <- r :: e.Display? ==> o == Returned(Some(e.text))
    ensures o.ParseFailure? ==> r == [ParseErrorShown(o.message)]
    ensures o.Thrown? ==> r == [ErrorShown(o.kind, o.message, o.file, o.line)]
  {
    match o
    case Returned(None) => []
    case Returned(Some(text)) => [Display(text)]
    case ParseFailure(m) => [ParseErrorShown(m)]
    case Thrown(k, m, f, l) => [ErrorShown(k, m, f, l)]
  }

  datatype StepResult = Stop(events: seq<Event>) | Next(session: Session, events: seq<Event>)

  /** The history entry a line adds: only lines that are not blank. */
  function HistoryOf(line: string): seq<Event> {
    if Trim(line) != [] then [History(line)] else []
  }

  /** One pass of the loop body after a line has been read. */
  function Step(s: Session, line: string, eval: Evaluator): (r: StepResult)
    // exit and quit end the loop whatever is pending; the line still reaches the history first
    ensures r.Stop? <==> IsExit(line)
    ensures r.Stop? ==> r.events == [History(line)]
    // the next prompt is the continuation prompt exactly when the grown buffer is incomplete
    ensures r.Next? ==> r.session.inMultiline == Incomplete(s.buffer + line + "\n")
    // a unit is either not dispatched, or it is the wrapped trimmed buffer and the buffer is emptied
    ensures r.Next? ==>
              || r.session.evaluated == s.evaluated
              || (&& r.session.buffer == []
                  && Trim(s.buffer + line + "\n") != []
                  && r.session.evaluated == s.evaluated + [Wrap(Trim(s.buffer + line + "\n"))])
    // a complete but blank buffer is reset and never evaluated
    ensures r.Next? && Trim(s.buffer + line + "\n") == [] ==> r.session.evaluated == s.evaluated
    // an incomplete buffer is kept, grown by the line and its newline, and nothing is evaluated
    ensures var buffer := s.buffer + line + "\n";
            r.Next? && Incomplete(buffer) ==> r == Next(Session(buffer, true, s.evaluated), HistoryOf(line))
    // a complete buffer is cleared; if it is not blank its unit is evaluated and the outcome reported
    ensures var buffer := s.buffer + line + "\n";
            r.Next? && !Incomplete(buffer) && Trim(buffer) == [] ==>
              r == Next(Session([], false, s.evaluated), HistoryOf(line))
    ensures var buffer := s.buffer + line + "\n";
            var unit := Wrap(Trim(buffer));
            r.Next? && !Incomplete(buffer) && Trim(buffer) != [] ==>
              r == Next(Session([], false, s.evaluated + [unit]),
                        HistoryOf(line) + [Evaluate(unit)] + Report(eval(s.evaluated, unit)))
  {
    var history := HistoryOf(line);
    if IsExit(line) then
      Stop(history)
    else
      var buffer := s.buffer + line + "\n";
      if Incomplete(buffer) then
        Next(Session(buffer, true, s.evaluated), history)
      else
        var code := Trim(buffer);
        EmptyBufferIsComplete();
        if code == [] then
          Next(Session([], false, s.evaluated), history)
        else
          var unit := Wrap(code);
          Next(Session([], false, s.evaluated + [unit]), history + [Evaluate(unit)] + Report(eval(s.evaluated, unit)))
  }

  /**
   * The events of one step: only a line that is not blank reaches the history;
   * an evaluated unit is always a statement, is the one recorded as evaluated,
   * and leaves the buffer empty.
   */
  lemma StepEvents(s: Session, line: string, eval: Evaluator)
    ensures var r := Step(s, line, eval);
            forall e <- r.events ::
              && (e.History? ==> e.entry == line && Trim(line) != [])
              && (e.Evaluate? ==> && EndsAsStatement(e.code)
                                  && r.Next? && r.session.buffer == []
                                  && r.session.evaluated == s.evaluated + [e.code])
  {
    var r := Step(s, line, eval);
    var buffer := s.buffer + line + "\n";
    if !IsExit(line) && !Incomplete(buffer) && Trim(buffer) != [] {
      var unit := Wrap(Trim(buffer));
      var report := Report(eval(s.evaluated, unit));
      assert r.events == HistoryOf(line) + [Evaluate(unit)] + report;
      forall e <- r.events
        ensures e.History? ==> e.entry == line && Trim(line) != []
        ensures e.Evaluate? ==> e.code == unit
      {
        if e !in HistoryOf(line) && e != Evaluate(unit) {
          assert e in report;
        }
      }
    }
  }

  /** After any line that does not exit, the loop's two variables agree again. */
  lemma StepKeepsValid(s: Session, line: string, eval: Evaluator)
    ensures Step(s, line, eval).Next? ==> Valid(Step(s, line, eval).session)
  {
    EmptyBufferIsComplete();
  }

  /** Everything the loop does from session `s` on the remaining `input`; the end of `input` is end-of-input. */
  function Run(s: Session, input: seq<string>, eval: Evaluator): (r: seq<Event>)
    ensures |r| > 0 && r[0] == Prompt(PromptFor(s))
    decreases |input|
  {
    var prompt := Prompt(PromptFor(s));
    if input == [] then [prompt]
    else
      match Step(s, input[0], eval)
      case Stop(events) => [prompt] + events
      case Next(next, events) => [prompt] + events + Run(next, input[1..], eval)
  }

  /** A whole session from the start: its first prompt is the single-line one. */
  function Transcript(input: seq<string>, eval: Evaluator): (r: seq<Event>)
    ensures |r| > 0 && r[0] == Prompt(SinglePrompt)
  {
    Run(Start, input, eval)
  }

  /**
   * The loop itself: read until end-of-input or an exit line, accumulating and
   * dispatching units. It always returns 0.
   */
  method StartRepl(input: seq<string>, eval: Evaluator) returns (status: int, trace: seq<Event>)
    ensures status == 0
    ensures trace == Transcript(input, eval)
  {
    var buffer: string := "";
    var inMultiline := false;
    var evaluated: seq<string> := [];
    var i := 0;
    trace := [];
    while true
      invariant 0 <= i <= |input|
      invariant trace + Run(Session(buffer, inMultiline, evaluated), input[i..], eval) == Transcript(input, eval)
      decreases |input| - i
    {
      ghost var before := Session(buffer, inMultiline, evaluated);
      ghost var start := trace;
      var prompt := if inMultiline then ContinuationPrompt else SinglePrompt;
      trace := trace + [Prompt(prompt)];
      if i == |input| {
        break;
      }
      var line := input[i];
      assert input[i..] == [line] + input[i + 1..];
      i := i + 1;
      if Trim(line) != "" {
        trace := trace + [History(line)];
      }
      assert trace == start + [Prompt(PromptFor(before))] + HistoryOf(line);
      if Trim(line) == "exit" || Trim(line) == "quit" {
        PassExit(start, before, line, input[i..], eval);
        break;
      }
      buffer := buffer + line + "\n";
      if Incomplete(buffer) {
        inMultiline := true;
        PassPending(start, before, line, input[i..], eval);
        continue;
      }
      inMultiline := false;
      var code := Trim(buffer);
      if code == "" {
        buffer := "";
        PassBlank(start, before, line, input[i..], eval);
        continue;
      }
      if !EndsAsStatement(code) {
        code := "return (" + code + ");";
      }
      var result := eval(evaluated, code);
      trace := trace + [Evaluate(code)] + Report(result);
      evaluated := evaluated + [code];
      buffer := "";
      PassEvaluate(start, before, line, input[i..], eval);
    }
    status := 0;
  }

  /*
   * One pass of the loop for each way a line can end it: what the pass
   * appended to the trace, followed by the run from the new session, is the
   * run from the old one.
   */

  lemma PassExit(start: seq<Event>, s: Session, line: string, later: seq<string>, eval: Evaluator)
    requires IsExit(line)
    ensures start + [Prompt(PromptFor(s))] + HistoryOf(line) == start + Run(s, [line] + later, eval)
  {
    RunUnfold(s, line, later, eval);
  }

  lemma PassPending(start: seq<Event>, s: Session, line: string, later: seq<string>, eval: Evaluator)
    requires !IsExit(line) && Incomplete(s.buffer + line + "\n")
    ensures start + [Prompt(PromptFor(s))] + HistoryOf(line)
              + Run(Session(s.buffer + line + "\n", true, s.evaluated), later, eval)
            == start + Run(s, [line] + later, eval)
  {
    RunUnfold(s, line, later, eval);
  }

  lemma PassBlank(start: seq<Event>, s: Session, line: string, later: seq<string>, eval: Evaluator)
    requires !IsExit(line) && !Incomplete(s.buffer + line + "\n") && Trim(s.buffer + line + "\n") == []
    ensures start + [Prompt(PromptFor(s))] + HistoryOf(line) + Run(Session([], false, s.evaluated), later, eval)
            == start + Run(s, [line] + later, eval)
  {
    RunUnfold(s, line, later, eval);
  }

  lemma PassEvaluate(start: seq<Event>, s: Session, line: string, later: seq<string>, eval: Evaluator)
    requires !IsExit(line) && !Incomplete(s.buffer + line + "\n") && Trim(s.buffer + line + "\n") != []
    ensures var unit := Wrap(Trim(s.buffer + line + "\n"));
            start + [Prompt(PromptFor(s))] + HistoryOf(line) + [Evaluate(unit)] + Report(eval(s.evaluated, unit))
              + Run(Session([], false, s.evaluated + [unit]), later, eval)
            == start + Run(s, [line] + later, eval)
  {
    var unit := Wrap(Trim(s.buffer + line + "\n"));
    var events := HistoryOf(line) + [Evaluate(unit)] + Report(eval(s.evaluated, unit));
    var tail := Run(Session([], false, s.evaluated + [unit]), later, eval);
    RunUnfold(s, line, later, eval);
    assert Run(s, [line] + later, eval) == [Prompt(PromptFor(s))] + events + tail;
  }

  // ---------------------------------------------------------------------------
  // Properties of whole sessions
  // ---------------------------------------------------------------------------

  /** Only lines that are not blank ever reach the history. */
  lemma {:induction false} HistoryNeverBlank(s: Session, input: seq<string>, eval: Evaluator)
    ensures forall e <- Run(s, input, eval) :: e.History? ==> Trim(e.entry) != []
    decreases |input|
  {
    if input != [] {
      StepEvents(s, input[0], eval);
      match Step(s, input[0], eval)
      case Stop(events) =>
      case Next(next, events) =>
        StepEvents(s, input[0], eval);
        HistoryNeverBlank(next, input[1..], eval);
    }
  }

  /** Every unit handed to the evaluator ends with `;` or `}`. */
  lemma {:induction false} EvaluatedUnitsAreStatements(s: Session, input: seq<string>, eval: Evaluator)
    ensures forall e <- Run(s, input, eval) :: e.Evaluate? ==> EndsAsStatement(e.code)
    decreases |input|
  {
    if input != [] {
      StepEvents(s, input[0], eval);
      match Step(s, input[0], eval)
      case Stop(events) =>
      case Next(next, events) =>
        StepEvents(s, input[0], eval);
        EvaluatedUnitsAreStatements(next, input[1..], eval);
    }
  }

  /** Every reachable session keeps the prompt flag and the buffer in agreement. */
  lemma {:induction false} ReachableSessionsValid(s: Session, input: seq<string>, eval: Evaluator, k: nat)
    requires Valid(s)
    requires k <= |input|
    ensures var r := Reach(s, input[..k], eval); r.Some? ==> Valid(r.value)
    decreases k
  {
    if k > 0 {
      assert input[..k][..k - 1] == input[..k - 1];
      ReachableSessionsValid(s, input, eval, k - 1);
      var r := Reach(s, input[..k - 1], eval);
      if r.Some? {
        StepKeepsValid(r.value, input[k - 1], eval);
      }
    }
  }

  /** The session after consuming `lines`, or `None` if one of them ended the loop. */
  function Reach(s: Session, lines: seq<string>, eval: Evaluator): Option<Session>
    decreases |lines|
  {
    if lines == [] then Some(s)
    else
      match Reach(s, lines[..|lines| - 1], eval)
      case None => None
      case Some(t) =>
        match Step(t, lines[|lines| - 1], eval)
        case Stop(_) => None
        case Next(n, _) => Some(n)
  }

  /**
   * After a line that does not exit, the next prompt is the continuation
   * prompt exactly when the buffer grown by that line is incomplete.
   */
  lemma PromptAfterLine(s: Session, line: string, rest: seq<string>, eval: Evaluator)
    requires !IsExit(line)
    ensures var events := Step(s, line, eval).events;
            var t := Run(s, [line] + rest, eval);
            |t| > 1 + |events| &&
            t[1 + |events|] == Prompt(if Incomplete(s.buffer + line + "\n") then ContinuationPrompt else SinglePrompt)
  {
    NextPromptFollowsStep(s, line, rest, eval);
  }

  lemma NextPromptFollowsStep(s: Session, line: string, rest: seq<string>, eval: Evaluator)
    requires !IsExit(line)
    ensures var r := Step(s, line, eval);
            var t := Run(s, [line] + rest, eval);
            r.Next? && |t| > 1 + |r.events| && t[1 + |r.events|] == Prompt(PromptFor(r.session))
  {
    var r := Step(s, line, eval);
    RunUnfold(s, line, rest, eval);
    var tail := Run(r.session, rest, eval);
    assert ([Prompt(PromptFor(s))] + r.events + tail)[1 + |r.events|] == tail[0];
  }

  lemma RunUnfold(s: Session, line: string, rest: seq<string>, eval: Evaluator)
    ensures var r := Step(s, line, eval);
            Run(s, [line] + rest, eval) ==
              [Prompt(PromptFor(s))] + r.events + (if r.Stop? then [] else Run(r.session, rest, eval))
  {
    assert ([line] + rest)[0] == line && ([line] + rest)[1..] == rest;
  }

  /** Nothing after an exit line is read: what follows it makes no difference. */
  lemma {:induction false} ExitIgnoresRest(s: Session, before: seq<string>, line: string,
                                           rest1: seq<string>, rest2: seq<string>, eval: Evaluator)
    requires IsExit(line)
    ensures Run(s, before + [line] + rest1, eval) == Run(s, before + [line] + rest2, eval)
    decreases |before|
  {
    var in1 := before + [line] + rest1;
    var in2 := before + [line] + rest2;
    if before == [] {
      assert in1[0] == line && in2[0] == line;
    } else {
      assert in1[0] == before[0] && in2[0] == before[0];
      assert in1[1..] == before[1..] + [line] + rest1;
      assert in2[1..] == before[1..] + [line] + rest2;
      match Step(s, before[0], eval)
      case Stop(events) =>
      case Next(next, events) =>
        ExitIgnoresRest(next, before[1..], line, rest1, rest2, eval);
    }
  }

  /** A call left open at the end of a line keeps the buffer incomplete. */
  lemma OpenCallIsIncomplete()
    ensures Incomplete("f(\n")
  {
    assert Count("f(\n", '(') == 1 && Count("f(\n", ')') == 0;
  }
}
