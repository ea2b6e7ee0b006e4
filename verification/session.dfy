/**
 The line protocol of one client session: the greeting, the dispatch of
 each request line on its first `|`-separated field, the text of every
 reply, and the session as a whole over a finite sequence of request lines.
 */
module Session {

  import opened Optional
  import JavaInt
  import JavaDecimal
  import JavaSplit
  import Calculator

  /** A line the server writes. */
  datatype Message =
    | Welcome(operators: string)
    | ResultLine(value: int)
    | ErrorLine(kind: Calculator.EvalError)
    | Prompt

  /** The sample calculation the greeting shows. */
  const SAMPLE: string := "12+12"

  /** The greeting, sent once before any request is read. */
  function Greeting(): (m: Message)
    ensures m == Welcome("+-/*^")
  {
    Welcome(Calculator.Operations())
  }

  /** The effect of one request line: a reply and on to the next line, the
      end of the session without a reply, or an uncaught fault that ends the
      server. */
  datatype Step = Reply(message: Message) | Stop | Abort

  /** The `|`-separated fields of a request line. */
  function Fields(line: string): (r: seq<string>)
    ensures forall k :: 0 <= k < |r| ==> JavaSplit.Free(r[k], JavaSplit.Bar)
  {
    JavaSplit.Split(line, JavaSplit.Bar)
  }

  /** A non-empty line made only of `|`: it has no field at all. */
  predicate BarsOnly(line: string) {
    |line| > 0 && JavaSplit.AllMatch(line, JavaSplit.Bar)
  }

  /** The text before the first `|` (all of it when there is none). */
  function FirstField(line: string): string {
    JavaSplit.Pieces(line, JavaSplit.Bar)[0]
  }

  /** A line has a field unless it is made only of `|`, and its first field
      is the text before the first `|`. */
  lemma FieldsShape(line: string)
    ensures |Fields(line)| == 0 <==> BarsOnly(line)
    ensures |Fields(line)| > 0 ==> Fields(line)[0] == FirstField(line)
  {
    JavaSplit.SplitEmptyIff(line, JavaSplit.Bar);
    if |Fields(line)| > 0 {
      JavaSplit.SplitFirst(line, JavaSplit.Bar);
    }
  }

  /** The reply to an evaluated expression. */
  function Answer(c: Calculator.Calc): (m: Message)
    ensures m.ResultLine? || m.ErrorLine?
    ensures m.ResultLine? <==> c.Ok?
    ensures m.ResultLine? ==> m.value == c.value
    ensures m.ErrorLine? ==> m.kind == c.kind
  {
    match c
    case Ok(v) => ResultLine(v)
    case Err(k) => ErrorLine(k)
  }

  /** One turn of the request loop as written. A line with no field at all
      faults when its first field is read, outside the handler that turns
      faults into `ERROR` replies. */
  function Dispatch(line: string): (r: Step)
    ensures r.Reply? ==> !r.message.Welcome?
  {
    var parts := Fields(line);
    if |parts| == 0 then Abort
    else if parts[0] == "CALCULATION" then
      if |parts| < 2 then Reply(ErrorLine(Calculator.Malformed))
      else Reply(Answer(Calculator.Calculate(parts[1])))
    else if parts[0] == "END" then Stop
    else Reply(Prompt)
  }

  /** One turn of the request loop with the missing guard: a line with no
      field is one more unrecognised instruction. */
  function DispatchGuarded(line: string): (r: Step)
    ensures !r.Abort?
    ensures r.Reply? ==> !r.message.Welcome?
  {
    var parts := Fields(line);
    if |parts| > 0 && parts[0] == "CALCULATION" then
      if |parts| < 2 then Reply(ErrorLine(Calculator.Malformed))
      else Reply(Answer(Calculator.Calculate(parts[1])))
    else if |parts| > 0 && parts[0] == "END" then Stop
    else Reply(Prompt)
  }

  /** The line as written to the socket. The index fault's message comes from
      the runtime, so it is a parameter. */
  function Render(m: Message, faultText: string): (r: string)
    ensures |r| > 0 && r[|r| - 1] == '\n'
  {
    match m
    case Welcome(ops) => "WELCOME " + SAMPLE + "| " + ops + "\n"
    case ResultLine(v) => "RESULT|" + JavaDecimal.FormatInt(v) + "\n"
    case ErrorLine(k) =>
      "ERROR|" + (if k.Malformed? then faultText else Calculator.ErrorName(k)) + "\n"
    case Prompt => "Please enter an instruction.\n"
  }

  datatype Status =
    | Open     // still waiting for the next request line
    | Closed   // ended by `END`
    | Crashed  // ended by an uncaught fault

  /** Everything the server has written, in order, and how the session stands. */
  datatype Transcript = Transcript(sent: seq<Message>, status: Status)

  /** The request loop over `lines`, after `sent` has been written. Each line
      read before the loop stops gets exactly one reply, in order; lines after
      a stopping line are never read. */
  function Serve(step: string -> Step, sent: seq<Message>, lines: seq<string>): (r: Transcript)
    ensures |sent| <= |r.sent| <= |sent| + |lines|
    ensures r.sent[..|sent|] == sent
    ensures forall j :: 0 <= j < |r.sent| - |sent| ==> step(lines[j]) == Reply(r.sent[|sent| + j])
    ensures r.status.Open? ==> |r.sent| == |sent| + |lines|
    ensures r.status.Closed? ==> |r.sent| - |sent| < |lines| && step(lines[|r.sent| - |sent|]) == Stop
    ensures r.status.Crashed? ==> |r.sent| - |sent| < |lines| && step(lines[|r.sent| - |sent|]) == Abort
    decreases |lines|
  {
    if |lines| == 0 then Transcript(sent, Open)
    else
      match step(lines[0])
      case Reply(m) =>
        var r := Serve(step, sent + [m], lines[1..]);
        assert (sent + [m])[..|sent|] == sent;
        assert r.sent[..|sent|] == r.sent[..|sent| + 1][..|sent|];
        r
      case Stop => Transcript(sent, Closed)
      case Abort => Transcript(sent, Crashed)
  }

  /** A session of the server as written: the greeting, then the request
      loop with the dispatch as written. */
  function RunAsWritten(lines: seq<string>): (r: Transcript)
    ensures |r.sent| >= 1 && r.sent[0] == Greeting()
  {
    Serve(Dispatch, [Greeting()], lines)
  }

  /** The corrected session: the same loop with the guarded dispatch, so a
      line made only of `|` no longer ends the server. */
  function RunGuarded(lines: seq<string>): (r: Transcript)
    ensures |r.sent| >= 1 && r.sent[0] == Greeting()
    ensures !r.status.Crashed?
  {
    Serve(DispatchGuarded, [Greeting()], lines)
  }

  /** The greeting line advertises the five operator symbols in declaration
      order after the sample expression. */
  lemma GreetingText(faultText: string)
    ensures Render(Greeting(), faultText) == "WELCOME 12+12| +-/*^\n"
  {
  }

  /** The prompt, and the `ERROR` line of each exception the calculator
      raises, as written to the socket. */
  lemma ReplyText(faultText: string)
    ensures Render(Prompt, faultText) == "Please enter an instruction.\n"
    ensures Render(ErrorLine(Calculator.NumberNotValid), faultText) == "ERROR|" + "NUMBER_NOT_VALID" + "\n"
    ensures Render(ErrorLine(Calculator.CannotDivideByZero), faultText) == "ERROR|" + "CANNOT_DIVIDE_BY_0" + "\n"
    ensures Render(ErrorLine(Calculator.OperationNotValid), faultText) == "ERROR|" + "OPERATION_NOT_VALID" + "\n"
  {
  }

  /** A `RESULT` line carries the value so that `Integer.parseInt` on the
      text between `RESULT|` and the newline gives it back. */
  lemma ResultLineRoundTrip(v: int, faultText: string)
    requires JavaInt.IsInt32(v)
    ensures var line := Render(ResultLine(v), faultText);
      && |line| > 8
      && line[..7] == "RESULT|"
      && JavaDecimal.ParseInt(line[7..|line| - 1]) == Some(v)
  {
    var digits := JavaDecimal.FormatInt(v);
    var line := Render(ResultLine(v), faultText);
    assert line == "RESULT|" + digits + "\n";
    assert line[7..|line| - 1] == digits;
    JavaDecimal.FormatParseRoundTrip(v);
  }

  /** The as-written loop faults exactly on a non-empty line made only of
      `|`: such a line has no field to compare. */
  lemma DispatchAbortIff(line: string)
    ensures Dispatch(line) == Abort <==> BarsOnly(line)
  {
    FieldsShape(line);
  }

  /** The guarded loop agrees with the loop as written on every line the
      latter survives, and answers the others with the prompt. */
  lemma DispatchGuardedAgrees(line: string)
    ensures Dispatch(line) != Abort ==> DispatchGuarded(line) == Dispatch(line)
    ensures Dispatch(line) == Abort ==> DispatchGuarded(line) == Reply(Prompt)
  {
  }

  /** The session ends exactly when the first field is `END`: the line is
      `END`, or `END` followed by `|` and anything. */
  lemma DispatchStopIff(line: string)
    ensures Dispatch(line) == Stop <==>
      line == "END" || (|line| > 3 && line[..3] == "END" && line[3] == '|')
  {
    JavaSplit.SplitHead(line, JavaSplit.Bar, "END");
  }

  /** The first two fields of `CALCULATION|e` followed by further fields:
      the tag and `e`, provided the line has a second field at all. */
  lemma CalculationFields(e: string, rest: string)
    requires JavaSplit.Free(e, JavaSplit.Bar)
    requires rest == "" || JavaSplit.Matches(JavaSplit.Bar, rest[0])
    requires e != "" || exists i :: 0 <= i < |rest| && !JavaSplit.Matches(JavaSplit.Bar, rest[i])
    ensures var parts := Fields("CALCULATION|" + e + rest);
      |parts| >= 2 && parts[0] == "CALCULATION" && parts[1] == e
  {
    var tag := "CALCULATION";
    assert JavaSplit.Free(tag, JavaSplit.Bar);
    JavaSplit.SplitFirstTwo(tag, '|', e, rest, JavaSplit.Bar);
    assert tag + ['|'] + e + rest == "CALCULATION|" + e + rest;
  }

  /** `CALCULATION|e`, where the expression `e` has no `|`, evaluates `e`
      whenever the line has a second field: `e` is non-empty, or some later
      field is. Any further fields are ignored. */
  lemma DispatchCalculation(e: string, rest: string)
    requires JavaSplit.Free(e, JavaSplit.Bar)
    requires rest == "" || JavaSplit.Matches(JavaSplit.Bar, rest[0])
    requires e != "" || exists i :: 0 <= i < |rest| && !JavaSplit.Matches(JavaSplit.Bar, rest[i])
    ensures Dispatch("CALCULATION|" + e + rest) == Reply(Answer(Calculator.Calculate(e)))
  {
    CalculationFields(e, rest);
  }

  /** The line `CALCULATION||5` evaluates the empty expression. */
  lemma ExampleEmptyExpressionField()
    ensures Dispatch("CALCULATION|" + "" + "|5") == Reply(ErrorLine(Calculator.NumberNotValid))
  {
    var rest := "|5";
    assert rest[1] != '|';
    DispatchCalculation("", rest);
    Calculator.ExampleEmptyExpression();
  }

  /** `CALCULATION` with no expression field, as in `CALCULATION` or
      `CALCULATION|`, is answered with the index-fault error. */
  lemma DispatchMissingExpression(bars: string)
    requires JavaSplit.AllMatch(bars, JavaSplit.Bar)
    ensures Dispatch("CALCULATION" + bars) == Reply(ErrorLine(Calculator.Malformed))
  {
    var tag := "CALCULATION";
    var line := tag + bars;
    if |bars| == 0 {
      assert line == tag;
      assert JavaSplit.Free(line, JavaSplit.Bar);
    } else {
      assert line == tag + [bars[0]] + bars[1..];
      JavaSplit.PiecesAtMatch(tag, bars[0], bars[1..], JavaSplit.Bar);
      JavaSplit.PiecesOfAllMatch(bars[1..], JavaSplit.Bar);
      var pieces := JavaSplit.Pieces(line, JavaSplit.Bar);
      assert !JavaSplit.Free(line, JavaSplit.Bar) by {
        assert line[|tag|] == '|';
      }
      var parts := Fields(line);
      assert parts[0] == tag;
    }
  }

  /** Every other line is answered with the prompt: a line whose first field
      is neither `CALCULATION` nor `END`, the empty line included. */
  lemma DispatchPromptIff(line: string)
    ensures Dispatch(line) == Reply(Prompt) <==>
      !BarsOnly(line) && FirstField(line) != "CALCULATION" && FirstField(line) != "END"
  {
    FieldsShape(line);
  }

  /** Once the loop has stopped, later lines change nothing: they are never
      read. */
  lemma {:induction false} ServeIgnoresLaterLines(
    step: string -> Step, sent: seq<Message>, lines: seq<string>, later: seq<string>)
    requires !Serve(step, sent, lines).status.Open?
    ensures Serve(step, sent, lines + later) == Serve(step, sent, lines)
    decreases |lines|
  {
    assert |lines| > 0;
    assert (lines + later)[0] == lines[0];
    match step(lines[0])
    case Reply(m) =>
      assert (lines + later)[1..] == lines[1..] + later;
      ServeIgnoresLaterLines(step, sent + [m], lines[1..], later);
    case Stop =>
    case Abort =>
  }

  /** Two loops whose turns agree on every line write the same transcript. */
  lemma {:induction false} ServeAgrees(
    step: string -> Step, other: string -> Step, sent: seq<Message>, lines: seq<string>)
    requires forall i :: 0 <= i < |lines| ==> step(lines[i]) == other(lines[i])
    ensures Serve(step, sent, lines) == Serve(other, sent, lines)
    decreases |lines|
  {
    if |lines| > 0 {
      assert step(lines[0]) == other(lines[0]);
      match step(lines[0])
      case Reply(m) =>
        assert forall i :: 0 <= i < |lines[1..]| ==> lines[1..][i] == lines[i + 1];
        ServeAgrees(step, other, sent + [m], lines[1..]);
      case Stop =>
      case Abort =>
    }
  }

  /** A loop whose turns never greet writes no greeting after `sent`. */
  lemma ServeNeverGreets(step: string -> Step, sent: seq<Message>, lines: seq<string>)
    requires forall line :: step(line).Reply? ==> !step(line).message.Welcome?
    ensures var r := Serve(step, sent, lines);
      forall i :: |sent| <= i < |r.sent| ==> !r.sent[i].Welcome?
  {
    var r := Serve(step, sent, lines);
    forall i | |sent| <= i < |r.sent|
      ensures !r.sent[i].Welcome?
    {
      assert step(lines[i - |sent|]) == Reply(r.sent[|sent| + (i - |sent|)]);
    }
  }

  /** The greeting is the first line written, before any request is read,
      and is never written again: in the server as written and in the
      corrected one. */
  lemma RunGreetsOnce(lines: seq<string>)
    ensures var r := RunAsWritten(lines);
      && |r.sent| >= 1
      && r.sent[0] == Greeting()
      && forall i :: 1 <= i < |r.sent| ==> !r.sent[i].Welcome?
    ensures var r := RunGuarded(lines);
      && |r.sent| >= 1
      && r.sent[0] == Greeting()
      && forall i :: 1 <= i < |r.sent| ==> !r.sent[i].Welcome?
  {
    assert RunAsWritten(lines) == Serve(Dispatch, [Greeting()], lines);
    ServeNeverGreets(Dispatch, [Greeting()], lines);
    assert RunGuarded(lines) == Serve(DispatchGuarded, [Greeting()], lines);
    ServeNeverGreets(DispatchGuarded, [Greeting()], lines);
  }

  /** The corrected session never crashes, and the server as written
      crashes only on input holding a line made only of `|`. */
  lemma RunNeverCrashes(lines: seq<string>)
    ensures !RunGuarded(lines).status.Crashed?
    ensures RunAsWritten(lines).status.Crashed? ==>
      exists i :: 0 <= i < |lines| && BarsOnly(lines[i])
  {
    var r := RunAsWritten(lines);
    if r.status.Crashed? {
      var i := |r.sent| - 1;
      assert Dispatch(lines[i]) == Abort;
      DispatchAbortIff(lines[i]);
    }
  }

  /** Without a line made only of `|`, the corrected session is the session
      as written. */
  lemma RunAgrees(lines: seq<string>)
    requires forall i :: 0 <= i < |lines| ==> !BarsOnly(lines[i])
    ensures RunGuarded(lines) == RunAsWritten(lines)
  {
    forall i | 0 <= i < |lines|
      ensures DispatchGuarded(lines[i]) == Dispatch(lines[i])
    {
      DispatchAbortIff(lines[i]);
      DispatchGuardedAgrees(lines[i]);
    }
    ServeAgrees(DispatchGuarded, Dispatch, [Greeting()], lines);
  }

  /** The line `|` ends the server as written; with the guard it is
      answered with the prompt and the session stays open. */
  lemma BarOnlyLine()
    ensures RunAsWritten(["|"]) == Transcript([Greeting()], Crashed)
    ensures RunGuarded(["|"]) == Transcript([Greeting(), Prompt], Open)
  {
    DispatchAbortIff("|");
    assert BarsOnly("|");
    var lines := ["|"];
    assert lines[1..] == [];
  }

  /** `CALCULATION|5+3` is answered with `RESULT|8`. */
  lemma ExampleCalculationRequest()
    ensures Dispatch("CALCULATION|" + "5" + "+" + "3") == Reply(ResultLine(8))
  {
    var e := "5" + "+" + "3";
    assert JavaSplit.Free(e, JavaSplit.Bar);
    assert "CALCULATION|" + "5" + "+" + "3" == "CALCULATION|" + e + "";
    DispatchCalculation(e, "");
    Calculator.ExampleSum();
  }

  /** `END` ends the session. */
  lemma ExampleEndRequest()
    ensures Dispatch("END") == Stop
  {
    DispatchStopIff("END");
  }

  /** Any other request is answered with the prompt. */
  lemma ExampleUnknownRequest()
    ensures Dispatch("PING") == Reply(Prompt)
  {
    var ping := "PING";
    assert JavaSplit.Free(ping, JavaSplit.Bar);
    JavaSplit.PiecesOfFree(ping, JavaSplit.Bar);
    DispatchPromptIff(ping);
  }

  /** The empty line is an unknown instruction too. */
  lemma ExampleEmptyRequest()
    ensures Dispatch("") == Reply(Prompt)
  {
    JavaSplit.SplitOfEmpty(JavaSplit.Bar);
  }

  /** `CALCULATION|` has a single field, so the expression is missing. */
  lemma ExampleMissingExpression()
    ensures Dispatch("CALCULATION" + "|") == Reply(ErrorLine(Calculator.Malformed))
  {
    var bars := "|";
    assert bars[0] == '|';
    DispatchMissingExpression(bars);
  }

  /** Two replies followed by a stop: the rest of the input is never read. */
  lemma ServeRepliesThenStop(step: string -> Step, sent: seq<Message>,
                             l0: string, l1: string, l2: string, later: seq<string>)
    requires step(l0).Reply? && step(l1).Reply? && step(l2) == Stop
    ensures Serve(step, sent, [l0, l1, l2] + later)
      == Transcript(sent + [step(l0).message, step(l1).message], Closed)
  {
    var lines := [l0, l1, l2] + later;
    var m0, m1 := step(l0).message, step(l1).message;
    assert lines[1..] == [l1, l2] + later;
    assert lines[1..][1..] == [l2] + later;
    assert Serve(step, sent + [m0] + [m1], [l2] + later) == Transcript(sent + [m0] + [m1], Closed);
    assert Serve(step, sent + [m0], [l1, l2] + later) == Transcript(sent + [m0] + [m1], Closed);
    assert sent + [m0] + [m1] == sent + [m0, m1];
  }

  /** Four request lines, of which the first two draw replies and the third
      ends the loop: those two replies, and the fourth line is never read. */
  lemma ServeFourLines(step: string -> Step, sent: seq<Message>,
                       l0: string, l1: string, l2: string, l3: string, m0: Message, m1: Message)
    requires step(l0) == Reply(m0) && step(l1) == Reply(m1) && step(l2) == Stop
    ensures Serve(step, sent, [l0, l1, l2, l3]) == Transcript(sent + [m0, m1], Closed)
  {
    ServeRepliesThenStop(step, sent, l0, l1, l2, [l3]);
    assert [l0, l1, l2] + [l3] == [l0, l1, l2, l3];
  }

  /** A whole session of the server as written: the greeting, one reply per
      request line up to `END`, and nothing read after it. */
  lemma ExampleSession()
    ensures RunAsWritten(["CALCULATION|" + "5" + "+" + "3", "PING", "END", "CALCULATION|1+1"])
      == Transcript([Greeting(), ResultLine(8), Prompt], Closed)
  {
    var l0, l1, l2, l3 := "CALCULATION|" + "5" + "+" + "3", "PING", "END", "CALCULATION|1+1";
    assert Dispatch(l0) == Reply(ResultLine(8)) by {
      ExampleCalculationRequest();
    }
    assert Dispatch(l1) == Reply(Prompt) by {
      ExampleUnknownRequest();
    }
    assert Dispatch(l2) == Stop by {
      ExampleEndRequest();
    }
    ServeFourLines(Dispatch, [Greeting()], l0, l1, l2, l3, ResultLine(8), Prompt);
    assert [Greeting()] + [ResultLine(8), Prompt] == [Greeting(), ResultLine(8), Prompt];
  }

  /** The corrected server writes the same session. */
  lemma ExampleSessionGuarded()
    ensures RunGuarded(["CALCULATION|" + "5" + "+" + "3", "PING", "END", "CALCULATION|1+1"])
      == Transcript([Greeting(), ResultLine(8), Prompt], Closed)
  {
    var lines := ["CALCULATION|" + "5" + "+" + "3", "PING", "END", "CALCULATION|1+1"];
    forall i | 0 <= i < |lines|
      ensures !BarsOnly(lines[i])
    {
      assert !JavaSplit.Matches(JavaSplit.Bar, lines[i][0]);
    }
    RunAgrees(lines);
    ExampleSession();
  }

}
