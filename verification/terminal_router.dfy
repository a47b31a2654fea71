/** How the terminal window interprets one submitted block of text
    (`TerminalGUI.execute_command` in terminal.py). The text is stripped; empty
    text does nothing; then, looking at the lower-cased text, `exit`/`quit` ask
    to quit, `clear` clears the screen, a `cd ` prefix changes directory, and
    everything else is run by the shell exactly as typed. */
module TerminalRouter {
  import opened Text

  datatype Directive =
    | Ignore                          // nothing but whitespace was submitted
    | RequestExit                     // ask for confirmation, then quit
    | ClearScreen
    | ChangeDirectory(target: string) // before `~` and `$VAR` expansion
    | RunExternal(command: string)    // handed to the shell verbatim

  /** The text names one of the built-in directives (it is already lower-cased). */
  predicate IsBuiltinWord(lowered: string)
  {
    lowered == "exit" || lowered == "quit" || lowered == "clear" || StartsWith(lowered, "cd ")
  }

  /** `execute_command`: strip, then dispatch. */
  function Classify(input: string): Directive
  {
    Dispatch(PyStrip(input))
  }

  /** The dispatch on the stripped command. */
  function Dispatch(command: string): Directive
  {
    var lowered := Lower(command);
    if command == "" then Ignore
    else if lowered == "exit" || lowered == "quit" then RequestExit
    else if lowered == "clear" then ClearScreen
    else if StartsWith(lowered, "cd ") then ChangeDirectory(PyStrip(command[3..]))
    else RunExternal(command)
  }

  /** Blank submissions, and only those, are ignored. */
  lemma ClassifyIgnore(input: string)
    ensures Classify(input).Ignore? <==> forall i :: 0 <= i < |input| ==> IsPySpace(input[i])
  {
    PyStripEmpty(input);
  }

  /** Which directive a stripped command names depends only on its lower-cased
      text. */
  lemma DispatchKinds(command: string)
    ensures Dispatch(command).Ignore? <==> Lower(command) == []
    ensures Dispatch(command).RequestExit? <==> Lower(command) in {"exit", "quit"}
    ensures Dispatch(command).ClearScreen? <==> Lower(command) == "clear"
    ensures Dispatch(command).ChangeDirectory? <==> StartsWith(Lower(command), "cd ")
    ensures Dispatch(command).RunExternal? <==> Lower(command) != [] && !IsBuiltinWord(Lower(command))
  {
    var lowered := Lower(command);
    assert command == [] <==> lowered == [];
    if StartsWith(lowered, "cd ") {
      assert lowered != "exit" && lowered != "quit" && lowered != "clear" by { assert lowered[2] == ' '; }
    }
  }

  /** `exit`, `quit`, `clear` and `cd` are recognised in any letter case and
      with surrounding whitespace; everything else is handed to the shell. */
  lemma ClassifyKinds(input: string)
    ensures Classify(input).RequestExit? <==> Lower(PyStrip(input)) in {"exit", "quit"}
    ensures Classify(input).ClearScreen? <==> Lower(PyStrip(input)) == "clear"
    ensures Classify(input).ChangeDirectory? <==> StartsWith(Lower(PyStrip(input)), "cd ")
    ensures Classify(input).RunExternal? <==> PyStrip(input) != [] && !IsBuiltinWord(Lower(PyStrip(input)))
  {
    DispatchKinds(PyStrip(input));
  }

  /** The shell receives the stripped text, letter case and inner spacing kept. */
  lemma ClassifyExternalCommand(input: string)
    ensures Classify(input).RunExternal? ==> Classify(input).command == PyStrip(input)
  {
  }

  /** Non-empty, with no whitespace at either end. */
  predicate IsTrimmedText(t: string)
  {
    t != [] && !IsPySpace(t[0]) && !IsPySpace(t[|t| - 1])
  }

  /** A `cd` always names a non-empty target with no surrounding whitespace. */
  lemma ClassifyChangeDirectory(input: string)
    ensures Classify(input).ChangeDirectory? ==> IsTrimmedText(Classify(input).target)
  {
    DispatchChangeDirectory(PyStrip(input));
  }

  lemma DispatchChangeDirectory(command: string)
    requires command == [] || !IsPySpace(command[|command| - 1])
    ensures Dispatch(command).ChangeDirectory? ==> IsTrimmedText(Dispatch(command).target)
  {
    if Dispatch(command).ChangeDirectory? {
      DispatchTarget(command);
      CdTargetNonEmpty(command);
    }
  }

  /** Where a `cd` target comes from. */
  lemma DispatchTarget(command: string)
    requires Dispatch(command).ChangeDirectory?
    ensures command != [] && StartsWith(Lower(command), "cd ")
    ensures Dispatch(command).target == PyStrip(command[3..])
  {
  }

  /** `command[3:].strip()` is never empty: the stripped command ends in a
      non-space character, and index 2 is a space, so something follows it. */
  lemma CdTargetNonEmpty(command: string)
    requires command != [] && !IsPySpace(command[|command| - 1])
    requires StartsWith(Lower(command), "cd ")
    ensures PyStrip(command[3..]) != []
  {
    assert Lower(command)[2] == ' ';
    assert LowerChar(command[2]) == ' ';
    var rest := command[3..];
    assert rest[|rest| - 1] == command[|command| - 1];
  }

  /** A canonical text for each directive. */
  function Render(d: Directive): string
  {
    match d
    case Ignore => ""
    case RequestExit => "exit"
    case ClearScreen => "clear"
    case ChangeDirectory(t) => "cd " + t
    case RunExternal(c) => c
  }

  /** The directives a submission can produce: targets and commands are
      stripped and non-empty, and an external command does not read as a
      built-in. */
  predicate Producible(d: Directive)
  {
    match d
    case ChangeDirectory(t) => IsTrimmedText(t)
    case RunExternal(c) => IsTrimmedText(c) && !IsBuiltinWord(Lower(c))
    case _ => true
  }

  /** Every producible directive is recovered from its canonical text. */
  lemma ClassifyRender(d: Directive)
    requires Producible(d)
    ensures Classify(Render(d)) == d
  {
    match d
    case Ignore =>
    case RequestExit => RenderExit();
    case ClearScreen => RenderClear();
    case ChangeDirectory(t) => RenderChangeDirectory(t);
    case RunExternal(c) => RenderExternal(c);
  }

  lemma RenderExit()
    ensures Classify("exit") == RequestExit
  {
    StrippedLowerWord("exit");
  }

  lemma RenderClear()
    ensures Classify("clear") == ClearScreen
  {
    StrippedLowerWord("clear");
  }

  /** A word of lower-case letters is its own stripped, lower-cased form. */
  lemma StrippedLowerWord(w: string)
    requires |w| > 0 && forall i :: 0 <= i < |w| ==> 'a' <= w[i] <= 'z'
    ensures PyStrip(w) == w && Lower(w) == w
  {
    assert !IsPySpace(w[0]) && !IsPySpace(w[|w| - 1]);
    LowerKeepsLowerCase(w);
  }

  lemma {:induction false} LowerKeepsLowerCase(w: string)
    requires forall i :: 0 <= i < |w| ==> 'a' <= w[i] <= 'z'
    ensures Lower(w) == w
    decreases |w|
  {
    if |w| > 0 {
      LowerKeepsLowerCase(w[..|w| - 1]);
    }
  }

  lemma RenderExternal(c: string)
    requires Producible(RunExternal(c))
    ensures Classify(c) == RunExternal(c)
  {
    assert PyStrip(c) == c;
  }

  lemma RenderChangeDirectory(t: string)
    requires Producible(ChangeDirectory(t))
    ensures Classify("cd " + t) == ChangeDirectory(t)
  {
    var s := "cd " + t;
    assert s[0] == 'c';
    assert PyStrip(s) == s;
    var lowered := Lower(s);
    assert lowered[0] == 'c' && lowered[1] == 'd' && lowered[2] == ' ';
    assert lowered[..3] == "cd ";
    assert s[3..] == t;
    DispatchKinds(s);
  }

  /** Which directive a submission names does not depend on letter case:
      `EXIT`, `Clear` and `CD dir` are built-ins too. */
  lemma KindIgnoresCase(a: string, b: string)
    requires Lower(PyStrip(a)) == Lower(PyStrip(b))
    ensures Classify(a).Ignore? == Classify(b).Ignore?
    ensures Classify(a).RequestExit? == Classify(b).RequestExit?
    ensures Classify(a).ClearScreen? == Classify(b).ClearScreen?
    ensures Classify(a).ChangeDirectory? == Classify(b).ChangeDirectory?
    ensures Classify(a).RunExternal? == Classify(b).RunExternal?
  {
    DispatchKinds(PyStrip(a));
    DispatchKinds(PyStrip(b));
  }
}
