/** The special treatment of `pip` commands in the terminal (terminal.py,
    `run_command` and `modify_pip_command`). A command typed as `pip ...`,
    `pip3 ...`, `python -m pip ...` or `python3 -m pip ...` is recognised by an
    exact, case-sensitive prefix; a leading `pip`/`pip3` is replaced by the
    application's own interpreter running `-m pip`; an `install` gets a fixed
    list of options spliced in after the first ` install `, and an `uninstall`
    gets `--yes` after the first ` uninstall `. */
module PipRewrite {
  import opened Results
  import opened Text

  const PipPrefixes: seq<string> := ["pip ", "pip3 ", "python -m pip ", "python3 -m pip "]

  /** `command.startswith(('pip ', 'pip3 ', 'python -m pip ', 'python3 -m pip '))`. */
  predicate IsPipCommand(command: string)
  {
    exists k :: 0 <= k < |PipPrefixes| && StartsWith(command, PipPrefixes[k])
  }

  /** The package index first consulted, then the two mirrors. */
  const PackageIndexes: seq<string> :=
    ["https://pypi.org/simple/", "https://pypi.tuna.tsinghua.edu.cn/simple/", "https://mirrors.aliyun.com/pypi/simple/"]

  /** The options added to an install, in order; `sitePackages` is the
      `Lib/site-packages` directory beside the interpreter. */
  function InstallOptions(sitePackages: string): seq<string>
  {
    [ "--no-warn-conflicts", "--disable-pip-version-check", "--upgrade",
      "--target=" + sitePackages,
      "--progress-bar", "on",
      "--index-url", PackageIndexes[0],
      "--extra-index-url", PackageIndexes[1],
      "--extra-index-url", PackageIndexes[2],
      "--trusted-host", "pypi.org",
      "--trusted-host", "pypi.tuna.tsinghua.edu.cn",
      "--trusted-host", "mirrors.aliyun.com" ]
  }

  const UninstallOptions: seq<string> := ["--yes"]

  const InstallToken := " install "
  const UninstallToken := " uninstall "

  /** What replaces a leading `pip ` or `pip3 `: the quoted interpreter path running pip as a module. */
  function Launcher(interpreter: string): string
  {
    "\"" + interpreter + "\" -m pip "
  }

  /** Step one of the rewrite: only `pip ` and `pip3 ` prefixes are replaced;
      the arguments after the prefix are kept as they are. */
  function SubstituteInterpreter(command: string, interpreter: string): (r: string)
    ensures StartsWith(command, "pip ") ==> r == Launcher(interpreter) + command[4..]
    ensures StartsWith(command, "pip3 ") ==> r == Launcher(interpreter) + command[5..]
    ensures !StartsWith(command, "pip ") && !StartsWith(command, "pip3 ") ==> r == command
  {
    if StartsWith(command, "pip ") then
      assert command[3] == ' ';
      Launcher(interpreter) + command[4..]
    else if StartsWith(command, "pip3 ") then Launcher(interpreter) + command[5..]
    else command
  }

  /** `f"{parts[0]}{token}{inserted} {parts[1]}"` where `parts` is `command`
      split at index `i`, the first occurrence of `token`. */
  function Splice(command: string, i: nat, token: string, inserted: string): string
    requires OccursAt(command, token, i)
  {
    command[..i] + token + inserted + " " + command[i + |token|..]
  }

  /** `modify_pip_command`: substitution, then the install or uninstall splice. */
  function Rewrite(command: string, interpreter: string, sitePackages: string): string
  {
    var c := SubstituteInterpreter(command, interpreter);
    match FindFirst(c, InstallToken)
    case Some(i) => Splice(c, i, InstallToken, JoinWith(InstallOptions(sitePackages), " "))
    case None =>
      match FindFirst(c, UninstallToken)
      case Some(i) => Splice(c, i, UninstallToken, JoinWith(UninstallOptions, " "))
      case None => c
  }

  /** Removes `inserted + " "` after the first occurrence of `token`, if it is there. */
  function Unsplice(s: string, token: string, inserted: string): Option<string>
  {
    match FindFirst(s, token)
    case None => None
    case Some(i) =>
      var rest := s[i + |token|..];
      if StartsWith(rest, inserted + " ") then Some(s[..i + |token|] + rest[|inserted| + 1..]) else None
  }

  /** The inverse of the splicing step. */
  function Restore(s: string, sitePackages: string): string
  {
    match Unsplice(s, InstallToken, JoinWith(InstallOptions(sitePackages), " "))
    case Some(c) => c
    case None =>
      match Unsplice(s, UninstallToken, JoinWith(UninstallOptions, " "))
      case Some(c) => c
      case None => s
  }

  /** Splicing at the first occurrence is undone by removing the inserted text
      after the first occurrence: the head is not searched past, the tail is
      kept exactly. */
  lemma SpliceUnsplice(c: string, token: string, inserted: string, i: nat)
    requires FindFirst(c, token) == Some(i)
    ensures Unsplice(Splice(c, i, token, inserted), token, inserted) == Some(c)
  {
    var s := Splice(c, i, token, inserted);
    var n := i + |token|;
    assert c[..i] + token == c[..n];
    assert s[..n] == c[..n];
    FirstOccurrenceSharedPrefix(c, s, token, i);
    var rest := s[n..];
    assert rest == inserted + " " + c[n..];
    assert StartsWith(rest, inserted + " ");
    assert rest[|inserted| + 1..] == c[n..];
    assert s[..n] + c[n..] == c;
  }

  /** After the uninstall splice there is still no ` install ` anywhere, so
      the inverse does not mistake an uninstall for an install. */
  lemma NoInstallAfterUninstallSplice(c: string, i: nat)
    requires FindFirst(c, InstallToken) == None
    requires OccursAt(c, UninstallToken, i)
    ensures FindFirst(Splice(c, i, UninstallToken, "--yes"), InstallToken) == None
  {
    var n := i + 11;
    var head, tail := c[..n], c[n..];
    assert c[..i] + UninstallToken == head;
    assert head + tail == c;
    assert Splice(c, i, UninstallToken, "--yes") == head + "--yes " + tail;
    forall j: nat
      ensures !OccursAt(head + "--yes " + tail, InstallToken, j)
    {
      NoInstallAt(head, tail, j);
    }
  }

  /** One position of the spliced uninstall command, compared with the original. */
  lemma NoInstallAt(head: string, tail: string, j: nat)
    requires EndsWith(head, UninstallToken)
    requires forall k :: 0 <= k ==> !OccursAt(head + tail, InstallToken, k)
    ensures !OccursAt(head + "--yes " + tail, InstallToken, j)
  {
    var s := head + "--yes " + tail;
    var c := head + tail;
    var n := |head|;
    if j + 9 > |s| {
    } else if j + 9 <= n {
      assert s[j..j + 9] == c[j..j + 9];
      assert !OccursAt(c, InstallToken, j);
    } else if j < n + 5 {
      SplicedRegion(head, tail, j);
    } else if j == n + 5 {
      assert s[j..j + 9] == c[n - 1..n + 8];
      assert !OccursAt(c, InstallToken, n - 1);
    } else {
      assert s[j..j + 9] == c[j - 6..j + 3];
      assert !OccursAt(c, InstallToken, j - 6);
    }
  }

  /** Inside `install --yes` no space is followed by the letter i. */
  lemma SplicedRegion(head: string, tail: string, j: nat)
    requires EndsWith(head, UninstallToken)
    requires |head| - 9 < j < |head| + 5
    ensures j + 1 < |head + "--yes " + tail|
    ensures (head + "--yes " + tail)[j] != ' ' || (head + "--yes " + tail)[j + 1] != 'i'
  {
    var s := head + "--yes " + tail;
    var n := |head|;
    var region := s[n - 8..n + 6];
    assert region == "install --yes ";
    assert s[j] == region[j - (n - 8)] && s[j + 1] == region[j + 1 - (n - 8)];
  }

  /** Round trip: removing what the rewrite inserted gives back the command as
      it stood after the interpreter substitution. */
  lemma RestoreRewrite(command: string, interpreter: string, sitePackages: string)
    ensures Restore(Rewrite(command, interpreter, sitePackages), sitePackages)
         == SubstituteInterpreter(command, interpreter)
    ensures var c := SubstituteInterpreter(command, interpreter);
      FindFirst(c, InstallToken).Some? ==>
        Unsplice(Rewrite(command, interpreter, sitePackages), InstallToken, JoinWith(InstallOptions(sitePackages), " "))
        == Some(c)
    ensures var c := SubstituteInterpreter(command, interpreter);
      FindFirst(c, InstallToken) == None && FindFirst(c, UninstallToken).Some? ==>
        && Unsplice(Rewrite(command, interpreter, sitePackages), UninstallToken, "--yes") == Some(c)
        && FindFirst(Rewrite(command, interpreter, sitePackages), InstallToken) == None
    ensures var c := SubstituteInterpreter(command, interpreter);
      FindFirst(c, InstallToken) == None && FindFirst(c, UninstallToken) == None ==>
        Rewrite(command, interpreter, sitePackages) == c
  {
    var c := SubstituteInterpreter(command, interpreter);
    var installArgs := JoinWith(InstallOptions(sitePackages), " ");
    match FindFirst(c, InstallToken)
    case Some(i) =>
      SpliceUnsplice(c, InstallToken, installArgs, i);
    case None =>
      match FindFirst(c, UninstallToken)
      case Some(i) =>
        NoInstallAfterUninstallSplice(c, i);
        SpliceUnsplice(c, UninstallToken, "--yes", i);
      case None =>
  }

  /** `pip X` and `pip3 X` are rewritten to the same command. */
  lemma PipAndPip3Agree(args: string, interpreter: string, sitePackages: string)
    ensures Rewrite("pip " + args, interpreter, sitePackages) == Rewrite("pip3 " + args, interpreter, sitePackages)
  {
    assert StartsWith("pip " + args, "pip ");
    assert ("pip " + args)[4..] == args;
    assert !StartsWith("pip3 " + args, "pip ") by { assert ("pip3 " + args)[3] == '3'; }
    assert StartsWith("pip3 " + args, "pip3 ");
    assert ("pip3 " + args)[5..] == args;
  }
  /** `run_command` before the process starts: only pip commands are
      rewritten; the same test decides how the output is filtered. */
  function PrepareCommand(command: string, interpreter: string, sitePackages: string): string
  {
    if IsPipCommand(command) then Rewrite(command, interpreter, sitePackages) else command
  }

  /** Other commands reach the shell as typed; for a pip command, removing
      the spliced options gives back the command after interpreter
      substitution. */
  lemma PrepareCommandCases(command: string, interpreter: string, sitePackages: string)
    ensures !IsPipCommand(command) ==> PrepareCommand(command, interpreter, sitePackages) == command
    ensures IsPipCommand(command) ==>
      Restore(PrepareCommand(command, interpreter, sitePackages), sitePackages) == SubstituteInterpreter(command, interpreter)
    ensures var c := SubstituteInterpreter(command, interpreter);
      IsPipCommand(command) && FindFirst(c, InstallToken).Some? ==>
        Unsplice(PrepareCommand(command, interpreter, sitePackages), InstallToken, JoinWith(InstallOptions(sitePackages), " "))
        == Some(c)
    ensures var c := SubstituteInterpreter(command, interpreter);
      IsPipCommand(command) && FindFirst(c, InstallToken) == None && FindFirst(c, UninstallToken).Some? ==>
        Unsplice(PrepareCommand(command, interpreter, sitePackages), UninstallToken, "--yes") == Some(c)
  {
    if IsPipCommand(command) {
      RestoreRewrite(command, interpreter, sitePackages);
    }
  }

  /** Detection is an exact, case-sensitive prefix test. */
  lemma PipDetectionIsExact()
    ensures IsPipCommand("python -m pip list")
    ensures !IsPipCommand("PIP list")
    ensures !IsPipCommand("pip")
  {
    assert StartsWith("python -m pip list", PipPrefixes[2]);
    forall k | 0 <= k < |PipPrefixes|
      ensures !StartsWith("PIP list", PipPrefixes[k]) && !StartsWith("pip", PipPrefixes[k])
    {
      assert PipPrefixes[k][0] == 'p' && |PipPrefixes[k]| > 3;
    }
  }

  /** `python -m pip` and `python3 -m pip` keep their own interpreter. */
  lemma ModuleFormKeepsInterpreter(args: string, interpreter: string)
    ensures SubstituteInterpreter("python -m pip " + args, interpreter) == "python -m pip " + args
    ensures SubstituteInterpreter("python3 -m pip " + args, interpreter) == "python3 -m pip " + args
  {
    assert ("python -m pip " + args)[1] == 'y';
    assert ("python3 -m pip " + args)[1] == 'y';
  }

  /** With neither token present after substitution, the rewrite only
      substitutes the interpreter. */
  lemma RewriteWithoutTokens(command: string, interpreter: string, sitePackages: string)
    requires forall j: nat :: !OccursAt(SubstituteInterpreter(command, interpreter), InstallToken, j)
    requires forall j: nat :: !OccursAt(SubstituteInterpreter(command, interpreter), UninstallToken, j)
    ensures Rewrite(command, interpreter, sitePackages) == SubstituteInterpreter(command, interpreter)
  {
  }

  /** Without a space after `install` there is nothing to splice: a bare
      `python -m pip install` is passed on unchanged. */
  lemma BareInstallIsNotSpliced(interpreter: string, sitePackages: string)
    ensures PrepareCommand("python -m pip install", interpreter, sitePackages) == "python -m pip install"
  {
    var c := "python -m pip " + "install";
    assert c == "python -m pip install";
    assert StartsWith(c, PipPrefixes[2]);
    ModuleFormKeepsInterpreter("install", interpreter);
    BareInstallLacks(InstallToken);
    BareInstallLacks(UninstallToken);
    RewriteWithoutTokens(c, interpreter, sitePackages);
  }

  /** Neither token occurs in `python -m pip install`: a token starts with a
      space, at the spaces of the command its second character differs, and
      it does not fit from the last space on. */
  lemma BareInstallLacks(token: string)
    requires token == InstallToken || token == UninstallToken
    ensures forall j: nat :: !OccursAt("python -m pip install", token, j)
  {
    var c := "python -m pip install";
    forall j: nat
      ensures !OccursAt(c, token, j)
    {
      if j + |token| > |c| {
      } else if j == 6 || j == 9 {
        MismatchAt(c, token, j, 1);
      } else {
        MismatchAt(c, token, j, 0);
      }
    }
  }
}
