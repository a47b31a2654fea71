/** What the terminal shows for one external command (terminal.py,
    `run_command` and its inner `read_output`). The reader thread alternates
    one `readline()` on standard output with one on standard error; each
    iteration is modelled as a `Reading` holding the two raw lines, with `""`
    for a stream that has nothing more. Non-empty lines become messages,
    stripped, flagged as errors when they came from standard error; for pip
    commands the error line goes first and noisy progress lines are dropped.
    When the process has finished, a non-zero return code adds one failure
    message, except for pip commands. */
module OutputDrain {
  import opened Results
  import opened Text
  import opened PipRewrite

  /** One entry of the output queue: the text and whether it is shown as an error. */
  datatype Message = Message(text: string, isError: bool)

  /** The raw results of one iteration's `stdout.readline()` and `stderr.readline()`. */
  datatype Reading = Reading(out: string, err: string)

  /** Lower-case phrases that mark a standard-error line of pip as noise. */
  const NoisePhrases: seq<string> := [
    "requirement already satisfied", "already up to date", "collecting",
    "downloading", "installing collected packages", "successfully installed"]

  predicate IsNoise(line: string)
  {
    exists k :: 0 <= k < |NoisePhrases| && Contains(Lower(line), NoisePhrases[k])
  }

  /** Whether a raw standard-error line reaches the screen. */
  predicate ShowsError(line: string, pip: bool)
  {
    line != "" && !(pip && IsNoise(line))
  }

  function OutMessages(line: string): seq<Message>
  {
    if line != "" then [Message(PyStrip(line), false)] else []
  }

  function ErrMessages(line: string, pip: bool): seq<Message>
  {
    if ShowsError(line, pip) then [Message(PyStrip(line), true)] else []
  }

  /** The messages one loop iteration puts on the queue, in order. */
  function StepMessages(r: Reading, pip: bool): seq<Message>
  {
    if pip then ErrMessages(r.err, true) + OutMessages(r.out)
    else OutMessages(r.out) + ErrMessages(r.err, false)
  }

  /** The messages of all iterations, in order. */
  function Emitted(readings: seq<Reading>, pip: bool): seq<Message>
  {
    if |readings| == 0 then []
    else Emitted(readings[..|readings| - 1], pip) + StepMessages(readings[|readings| - 1], pip)
  }

  /** The message queued after the loop when the command failed. */
  function FailureNotice(returnCode: int): Message
  {
    Message("\n命令执行失败，返回码: " + IntToDecimal(returnCode), true)
  }

  function Trailer(returnCode: int, pip: bool): seq<Message>
  {
    if returnCode != 0 && !pip then [FailureNotice(returnCode)] else []
  }

  // ---------------------------------------------------------------------------
  // Per-stream views: what the user sees of each stream on its own.

  /** The stripped non-empty standard-output lines, in order. */
  function OutLines(readings: seq<Reading>): seq<string>
  {
    if |readings| == 0 then []
    else
      var last := readings[|readings| - 1];
      OutLines(readings[..|readings| - 1]) + (if last.out != "" then [PyStrip(last.out)] else [])
  }

  /** The stripped standard-error lines that pass the filter, in order. */
  function ErrLines(readings: seq<Reading>, pip: bool): seq<string>
  {
    if |readings| == 0 then []
    else
      var last := readings[|readings| - 1];
      ErrLines(readings[..|readings| - 1], pip) + (if ShowsError(last.err, pip) then [PyStrip(last.err)] else [])
  }

  /** The texts of the messages with the given error flag, in order. */
  function Texts(ms: seq<Message>, isError: bool): seq<string>
  {
    if |ms| == 0 then []
    else Texts(ms[..|ms| - 1], isError) + (if ms[|ms| - 1].isError == isError then [ms[|ms| - 1].text] else [])
  }

  lemma {:induction false} TextsAppend(a: seq<Message>, b: seq<Message>, isError: bool)
    ensures Texts(a + b, isError) == Texts(a, isError) + Texts(b, isError)
    decreases |b|
  {
    if |b| > 0 {
      var b' := b[..|b| - 1];
      assert (a + b)[..|a + b| - 1] == a + b';
      TextsAppend(a, b', isError);
    } else {
      assert a + b == a;
    }
  }

  lemma TextsSingle(m: Message, isError: bool)
    ensures Texts([m], isError) == if m.isError == isError then [m.text] else []
  {
    assert [m][..0] == [];
  }

  /** What one iteration contributes to each stream's view. */
  lemma StepTexts(r: Reading, pip: bool)
    ensures Texts(StepMessages(r, pip), false) == if r.out != "" then [PyStrip(r.out)] else []
    ensures Texts(StepMessages(r, pip), true) == if ShowsError(r.err, pip) then [PyStrip(r.err)] else []
  {
    var o, e := OutMessages(r.out), ErrMessages(r.err, pip);
    if r.out != "" { TextsSingle(o[0], false); TextsSingle(o[0], true); assert o == [o[0]]; }
    if ShowsError(r.err, pip) { TextsSingle(e[0], false); TextsSingle(e[0], true); assert e == [e[0]]; }
    if pip {
      TextsAppend(e, o, false);
      TextsAppend(e, o, true);
    } else {
      TextsAppend(o, e, false);
      TextsAppend(o, e, true);
    }
  }

  /** Standard output is shown in full, in order, with nothing else marked normal. */
  lemma {:induction false} NormalMessagesAreStdout(readings: seq<Reading>, pip: bool)
    ensures Texts(Emitted(readings, pip), false) == OutLines(readings)
    decreases |readings|
  {
    if |readings| > 0 {
      var init := readings[..|readings| - 1];
      var r := readings[|readings| - 1];
      NormalMessagesAreStdout(init, pip);
      TextsAppend(Emitted(init, pip), StepMessages(r, pip), false);
      StepTexts(r, pip);
    }
  }

  /** Standard error is shown in order, minus exactly the filtered lines. */
  lemma {:induction false} ErrorMessagesAreKeptStderr(readings: seq<Reading>, pip: bool)
    ensures Texts(Emitted(readings, pip), true) == ErrLines(readings, pip)
    decreases |readings|
  {
    if |readings| > 0 {
      var init := readings[..|readings| - 1];
      var r := readings[|readings| - 1];
      ErrorMessagesAreKeptStderr(init, pip);
      TextsAppend(Emitted(init, pip), StepMessages(r, pip), true);
      StepTexts(r, pip);
    }
  }

  /** A message that cannot be mistaken for the failure notice. */
  predicate NotNotice(m: Message)
  {
    m.text == [] || m.text[0] != '\n'
  }

  /** A stripped line never starts with a newline. */
  lemma StrippedNotNotice(line: string, isError: bool)
    ensures NotNotice(Message(PyStrip(line), isError))
  {
    assert IsPySpace('\n');
  }

  lemma StepNotNotice(r: Reading, pip: bool)
    ensures forall m :: m in StepMessages(r, pip) ==> NotNotice(m)
  {
    var o, e := OutMessages(r.out), ErrMessages(r.err, pip);
    if r.out != "" {
      StrippedNotNotice(r.out, false);
      assert o == [Message(PyStrip(r.out), false)];
    } else {
      assert o == [];
    }
    if ShowsError(r.err, pip) {
      StrippedNotNotice(r.err, true);
      assert e == [Message(PyStrip(r.err), true)];
    } else {
      assert e == [];
    }
    assert forall m :: m in o ==> NotNotice(m);
    assert forall m :: m in e ==> NotNotice(m);
    assert StepMessages(r, pip) == if pip then e + o else o + e;
  }

  /** No stripped line starts with a newline, so the failure notice can never
      be confused with an output line. */
  lemma {:induction false} EmittedNeverStartsWithNewline(readings: seq<Reading>, pip: bool)
    ensures forall m :: m in Emitted(readings, pip) ==> NotNotice(m)
    decreases |readings|
  {
    if |readings| > 0 {
      var init := readings[..|readings| - 1];
      EmittedNeverStartsWithNewline(init, pip);
      StepNotNotice(readings[|readings| - 1], pip);
      assert Emitted(readings, pip) == Emitted(init, pip) + StepMessages(readings[|readings| - 1], pip);
    }
  }

  function CountNotices(ms: seq<Message>): nat
  {
    if |ms| == 0 then 0
    else CountNotices(ms[..|ms| - 1]) + (if ms[|ms| - 1].text != [] && ms[|ms| - 1].text[0] == '\n' then 1 else 0)
  }

  lemma {:induction false} CountNoticesAppend(a: seq<Message>, b: seq<Message>)
    ensures CountNotices(a + b) == CountNotices(a) + CountNotices(b)
    decreases |b|
  {
    if |b| > 0 {
      assert (a + b)[..|a + b| - 1] == a + b[..|b| - 1];
      CountNoticesAppend(a, b[..|b| - 1]);
    } else {
      assert a + b == a;
    }
  }

  lemma {:induction false} NoNoticesInEmitted(ms: seq<Message>)
    requires forall m :: m in ms ==> NotNotice(m)
    ensures CountNotices(ms) == 0
    decreases |ms|
  {
    if |ms| > 0 {
      var init := ms[..|ms| - 1];
      assert forall m :: m in init ==> m in ms;
      NoNoticesInEmitted(init);
      assert ms[|ms| - 1] in ms;
    }
  }

  function QueueOf(readings: seq<Reading>, pip: bool, returnCode: int): seq<Message>
  {
    Emitted(readings, pip) + Trailer(returnCode, pip)
  }

  /** What the user sees, stream by stream, and the single failure notice. */
  lemma QueueViews(readings: seq<Reading>, pip: bool, returnCode: int)
    ensures Texts(QueueOf(readings, pip, returnCode), false) == OutLines(readings)
    ensures Texts(QueueOf(readings, pip, returnCode), true)
         == ErrLines(readings, pip) + (if returnCode != 0 && !pip then [FailureNotice(returnCode).text] else [])
    ensures CountNotices(QueueOf(readings, pip, returnCode)) == (if returnCode != 0 && !pip then 1 else 0)
  {
    var emitted := Emitted(readings, pip);
    var trailer := Trailer(returnCode, pip);
    NormalMessagesAreStdout(readings, pip);
    ErrorMessagesAreKeptStderr(readings, pip);
    TextsAppend(emitted, trailer, false);
    TextsAppend(emitted, trailer, true);
    EmittedNeverStartsWithNewline(readings, pip);
    NoNoticesInEmitted(emitted);
    CountNoticesAppend(emitted, trailer);
    if returnCode != 0 && !pip {
      TextsSingle(FailureNotice(returnCode), false);
      TextsSingle(FailureNotice(returnCode), true);
      assert [FailureNotice(returnCode)][..0] == [];
    }
  }

  /** The body of one iteration of the `read_output` loop. */
  method EmitStep(r: Reading, pip: bool) returns (step: seq<Message>)
    ensures step == StepMessages(r, pip)
    ensures |step| <= 2
    ensures |step| == 2 ==> step[0].isError == pip && step[1].isError == !pip
    ensures Texts(step, false) == if r.out != "" then [PyStrip(r.out)] else []
    ensures Texts(step, true) == if ShowsError(r.err, pip) then [PyStrip(r.err)] else []
  {
    var o, e := OutMessages(r.out), ErrMessages(r.err, pip);
    assert o == [] || (|o| == 1 && !o[0].isError);
    assert e == [] || (|e| == 1 && e[0].isError);
    if pip {
      step := e + o;   // the filtered error line first
    } else {
      step := o + e;
    }
    StepTexts(r, pip);
  }

  /** `read_output` as a loop over the readings. */
  method ReadOutput(readings: seq<Reading>, pip: bool, returnCode: int) returns (queue: seq<Message>)
    ensures queue == Emitted(readings, pip) + Trailer(returnCode, pip)
    ensures Texts(queue, false) == OutLines(readings)
    ensures Texts(queue, true) == ErrLines(readings, pip) + (if returnCode != 0 && !pip then [FailureNotice(returnCode).text] else [])
    ensures CountNotices(queue) == (if returnCode != 0 && !pip then 1 else 0)
    ensures returnCode != 0 && !pip ==> queue[|queue| - 1] == FailureNotice(returnCode)
  {
    queue := [];
    var k := 0;
    while k < |readings|
      invariant 0 <= k <= |readings|
      invariant queue == Emitted(readings[..k], pip)
    {
      var step := EmitStep(readings[k], pip);
      queue := queue + step;
      assert readings[..k + 1][..k] == readings[..k];
      k := k + 1;
    }
    assert readings[..k] == readings;
    if returnCode != 0 && !pip {
      queue := queue + [FailureNotice(returnCode)];
    }
    QueueViews(readings, pip, returnCode);
  }

  /** `run_command` for an external command: the pip test on the typed
      command decides both the rewrite and how the output is filtered. The
      readings and the return code stand for the running process. */
  method RunCommand(command: string, interpreter: string, sitePackages: string,
                    readings: seq<Reading>, returnCode: int)
    returns (shellCommand: string, queue: seq<Message>)
    ensures !IsPipCommand(command) ==> shellCommand == command
    ensures IsPipCommand(command) ==>
      Restore(shellCommand, sitePackages) == SubstituteInterpreter(command, interpreter)
    ensures var c := SubstituteInterpreter(command, interpreter);
      IsPipCommand(command) && FindFirst(c, InstallToken).Some? ==>
        Unsplice(shellCommand, InstallToken, JoinWith(InstallOptions(sitePackages), " ")) == Some(c)
    ensures var c := SubstituteInterpreter(command, interpreter);
      IsPipCommand(command) && FindFirst(c, InstallToken) == None && FindFirst(c, UninstallToken).Some? ==>
        Unsplice(shellCommand, UninstallToken, "--yes") == Some(c)
    ensures Texts(queue, false) == OutLines(readings)
    ensures Texts(queue, true) == ErrLines(readings, IsPipCommand(command))
      + (if returnCode != 0 && !IsPipCommand(command) then [FailureNotice(returnCode).text] else [])
    ensures IsPipCommand(command) ==> CountNotices(queue) == 0
    ensures !IsPipCommand(command) && returnCode != 0 ==>
      CountNotices(queue) == 1 && queue[|queue| - 1] == FailureNotice(returnCode)
  {
    var pip := IsPipCommand(command);
    shellCommand := PrepareCommand(command, interpreter, sitePackages);
    PrepareCommandCases(command, interpreter, sitePackages);
    queue := ReadOutput(readings, pip, returnCode);
  }
}
