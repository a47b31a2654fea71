# A Dafny model of the launcher core of yuhanbopy-app

yuhanbopy-app is an Electron desktop application that runs small Python
tools ("software") shipped as packages. This project models the decision
logic at its core and proves properties of it.

- **Terminal tool** (`software/terminal/terminal.py`). Each submitted block of
  text is classified as nothing, exit, clear, change directory, or an
  external command. `pip` commands are rewritten to use the bundled
  interpreter, a fixed install target and the package mirrors. The reader
  thread turns the command's standard output and standard error into the
  queue of screen messages.
- **Software manager** (`software_manager.js`).
  - A package is recognised as a ZIP archive by its first four bytes.
  - The data files of an archive are copied into the software's work
    directory.
  - The entry point is chosen by priority.
  - An encrypted package is split into an initialisation vector and a
    ciphertext. The deciphered text has its `\n`-terminated coding
    declarations removed in one left-to-right pass, and a UTF-8 coding
    declaration is put in front. A declaration ending in `\r\n`, or one
    formed by a removal, stays.
  - The `close` handler decides how the run's promise settles.
  - The map of running processes supports register, stop and stop-all.
- **GitHub downloader** (`software/github_downloader/github_downloader.py`).
  - Repository addresses are parsed.
  - The archive address and the zip file name are built.
  - A blank save directory and a blank address are rejected.
  - The software directory is found by the same priority `get_software_dir`
    uses.
- **COS downloader** (`software/cos_downloader/cos_downloader.py`).
  - The file name is taken from the address: the last `/` segment,
    percent-decoded as `urllib.parse.unquote` does.
  - A missing name is an error.
  - The download path is built, and the `.zip` test decides extraction.
  - A decoded name can contain `/`, which moves the file out of the software
    directory. A corrected plan that refuses such names is modelled as well
    (see Findings).
  - The final status line is derived from the plan and the transfer's
    outcome.
  - The password passed to `extractall` is always `None`.
  - The start guard and `get_software_dir` are modelled as for the GitHub
    downloader.

## Modules and parameters

Everything is written as pure functions over immutable data, one module per
concern:

| module | models |
|---|---|
| `Results` | `Option` and `Result` |
| `Text` | Python `strip` / `lower`, JavaScript `trim`, substring search, hex and decimal rendering |
| `PosixPath` | `posixpath.join`, `basename`, `dirname` |
| `TerminalRouter` | classification of a submission |
| `PipRewrite` | `modify_pip_command` |
| `OutputDrain` | `read_output` |
| `DownloadCommon` | what the two downloaders share |
| `GithubDownloader` | the GitHub downloader |
| `CosDownloader` | the COS downloader |
| `LaunchFiles` | ZIP test, data-file copy, entry point |
| `LaunchPlan` | `decryptCode` and the branch of `runSoftware` |
| `ProcessRegistry` | the close handler and `this.processes` |

Everything the code asks of the operating system becomes a parameter of the
function that needs it:

- the file system (`resolve`, `isDir`, `canCreate`, the directory listing, the
  set of present files);
- the AES-256-CBC decipher (`decipher`);
- UTF-8 decoding (`decode`);
- process handles (a type parameter).

## Model

| member | source | states |
|---|---|---|
| Text.PyStripEmpty | resources/app/software/terminal/terminal.py:260-262 | the stripped text is empty exactly when every character is whitespace |
| Text.PyStripIsOuterRemoved | resources/app/software/terminal/terminal.py:260 | `strip()` returns an infix of the input with only whitespace outside it and no whitespace at either end, and it is the only such infix |
| Text.JsTrimIsOuterRemoved | resources/app/software_manager.js:85 | `trim()` returns an infix of the input with only JavaScript whitespace outside it and none at either end, and it is the only such infix |
| Text.Lower | resources/app/software/terminal/terminal.py:269 | lower-casing keeps the length and maps each character independently |
| Text.FindFirstIsEarliest | resources/app/software/terminal/terminal.py:249 | the split point of `split(token, 1)` is the earliest occurrence of the token |
| Text.IntToDecimalRoundTrip | resources/app/software_manager.js:235 | a printed exit code (negative ones included) reads back as the same integer |
| Text.HexDigitRoundTrip | resources/app/software_manager.js:126 | each lower-case hex digit produced by `toString('hex')` stands for its value |
| TerminalRouter.ClassifyIgnore | resources/app/software/terminal/terminal.py:260-262 | a submission is ignored if and only if it is all whitespace |
| TerminalRouter.DispatchKinds | resources/app/software/terminal/terminal.py:269-288 | for a stripped command, each of the five outcomes holds exactly when its lower-cased-text condition holds |
| TerminalRouter.ClassifyKinds | resources/app/software/terminal/terminal.py:260-288 | exit/quit, clear, `cd ` and external commands are recognised exactly by the lower-cased stripped text |
| TerminalRouter.ClassifyExternalCommand | resources/app/software/terminal/terminal.py:288 | the shell receives the stripped text with its letter case kept |
| TerminalRouter.ClassifyChangeDirectory | resources/app/software/terminal/terminal.py:278-280 | a `cd` target is never empty and has no surrounding whitespace |
| TerminalRouter.DispatchChangeDirectory | resources/app/software/terminal/terminal.py:278-280 | for a command ending in non-whitespace, the `cd` target is trimmed and non-empty |
| TerminalRouter.DispatchTarget | resources/app/software/terminal/terminal.py:278-280 | a `cd` directive comes from a lower-cased `cd ` prefix, and its target is the stripped rest of the command |
| TerminalRouter.CdTargetNonEmpty | resources/app/software/terminal/terminal.py:280 | `command[3:].strip()` of a stripped `cd ` command is never empty |
| TerminalRouter.ClassifyRender | resources/app/software/terminal/terminal.py:260-288 | every directive a submission can produce is recovered from its canonical text (round trip) |
| TerminalRouter.RenderExit | resources/app/software/terminal/terminal.py:269 | `exit` asks to quit |
| TerminalRouter.RenderClear | resources/app/software/terminal/terminal.py:274 | `clear` clears the screen |
| TerminalRouter.RenderExternal | resources/app/software/terminal/terminal.py:288 | a trimmed non-built-in command is run as typed |
| TerminalRouter.RenderChangeDirectory | resources/app/software/terminal/terminal.py:278-280 | `cd <t>` with a trimmed target changes to exactly `t` |
| TerminalRouter.KindIgnoresCase | resources/app/software/terminal/terminal.py:269-278 | submissions equal up to letter case and surrounding whitespace get the same kind of directive |
| PipRewrite.SubstituteInterpreter | resources/app/software/terminal/terminal.py:228-231 | only a leading `pip ` or `pip3 ` is replaced by the quoted interpreter running `-m pip`; the arguments are kept |
| PipRewrite.SpliceUnsplice | resources/app/software/terminal/terminal.py:249-250 | removing the inserted options after the first token undoes the splice |
| PipRewrite.NoInstallAfterUninstallSplice | resources/app/software/terminal/terminal.py:251-255 | adding `--yes` after ` uninstall ` never creates an ` install ` |
| PipRewrite.RestoreRewrite | resources/app/software/terminal/terminal.py:211-257 | when ` install ` occurs, the install options sit right after its first occurrence and removing them there gives back the command after interpreter substitution; otherwise, when ` uninstall ` occurs, `--yes` sits after its first occurrence, removing it gives the command back, and no ` install ` appears; with neither, only the interpreter is substituted |
| PipRewrite.PipAndPip3Agree | resources/app/software/terminal/terminal.py:228-231 | `pip X` and `pip3 X` are rewritten to the same command |
| PipRewrite.PrepareCommandCases | resources/app/software/terminal/terminal.py:157-159 | a command without one of the four pip prefixes reaches the shell exactly as typed; a pip install command gets the install options after its first ` install `, and a pip uninstall command without ` install ` gets `--yes` after its first ` uninstall `; removing them gives back the command after interpreter substitution |
| PipRewrite.PipDetectionIsExact | resources/app/software/terminal/terminal.py:157 | the pip test is an exact, case-sensitive prefix test that needs the space: `python -m pip list` is a pip command, `PIP list` and `pip` are not |
| PipRewrite.ModuleFormKeepsInterpreter | resources/app/software/terminal/terminal.py:228-231 | `python -m pip` and `python3 -m pip` commands keep their own interpreter |
| PipRewrite.RewriteWithoutTokens | resources/app/software/terminal/terminal.py:234-257 | when neither ` install ` nor ` uninstall ` occurs, the rewrite only substitutes the interpreter |
| PipRewrite.BareInstallIsNotSpliced | resources/app/software/terminal/terminal.py:234-257 | a bare `python -m pip install`, with no space after `install`, gets no options and is passed on unchanged |
| OutputDrain.NormalMessagesAreStdout | resources/app/software/terminal/terminal.py:172-196 | the normal messages are exactly the stripped non-empty standard-output lines, in order |
| OutputDrain.ErrorMessagesAreKeptStderr | resources/app/software/terminal/terminal.py:180-196 | the error messages are exactly the stripped standard-error lines that pass the pip noise filter, in order |
| OutputDrain.EmittedNeverStartsWithNewline | resources/app/software/terminal/terminal.py:189-196 | no line message can be mistaken for the failure notice |
| OutputDrain.QueueViews | resources/app/software/terminal/terminal.py:172-200 | both per-stream views of the queue, plus exactly one failure notice for a failed non-pip command and none otherwise |
| OutputDrain.EmitStep | resources/app/software/terminal/terminal.py:180-196 | one iteration queues at most one message per stream: the output view gains exactly the stripped output line if any, the error view exactly the stripped error line that passes the pip filter; with two messages the error line leads for pip commands and trails otherwise |
| OutputDrain.RunCommand | resources/app/software/terminal/terminal.py:154-200 | one pip test on the typed command decides both sides: a non-pip command reaches the shell as typed, is not filtered, and a failure adds exactly one notice at the end; a pip command gets the install options right after its first ` install ` (or `--yes` after its first ` uninstall ` when there is no ` install `), removing them there gives back the command after interpreter substitution, its stderr is filtered, and it never gets a failure notice |
| OutputDrain.ReadOutput | resources/app/software/terminal/terminal.py:172-200 | the loop's queue has the stream views above, and the failure notice comes last when there is one |
| PosixPath.BasenameAfterSlash | resources/app/software/github_downloader/github_downloader.py:215 | `basename` returns what follows the last `/` |
| PosixPath.BasenameJoin | resources/app/software/github_downloader/github_downloader.py:147 | `basename(join(a, b))` is `b` for a separator-free name |
| PosixPath.DirnameJoin | resources/app/software/github_downloader/github_downloader.py:147-150 | `dirname(join(a, b))` is `a` for a directory without a trailing `/` |
| DownloadCommon.FirstDirectory | resources/app/software/github_downloader/github_downloader.py:230-233 | the result is the first candidate that resolves to a directory, or none when no candidate does |
| DownloadCommon.SoftwareDirPriority | resources/app/software/github_downloader/github_downloader.py:208-243 | development layout first, then the first existing candidate (resolved), then the created `software` directory, and the script directory when creation fails |
| DownloadCommon.DevelopmentLayout | resources/app/software/github_downloader/github_downloader.py:215-217 | inside `<parent>/<tool>` the answer is `parent`, whatever the file system holds |
| DownloadCommon.StartDownloadGuard | resources/app/software/github_downloader/github_downloader.py:194-206 | a download starts exactly when the address holds a non-space character, and it receives the stripped address |
| GithubDownloader.LstripAt | resources/app/software/github_downloader/github_downloader.py:119 | only leading `@` characters are removed |
| GithubDownloader.ParseIgnoresLeadingAt | resources/app/software/github_downloader/github_downloader.py:116-131 | a leading `@` changes nothing, for the program as written and for the corrected parser |
| GithubDownloader.RemoveGitSuffix | resources/app/software/github_downloader/github_downloader.py:121-122 | corrected: exactly one trailing `.git` is removed, if present, as the comment on line 121 intends (line 122 strips characters instead) |
| GithubDownloader.Segment | resources/app/software/github_downloader/github_downloader.py:125 | `[^/]+` consumes the longest `/`-free prefix |
| GithubDownloader.MatchPath | resources/app/software/github_downloader/github_downloader.py:125-126 | owner and repository are non-empty and contain no `/`, the path starts with `owner/repo`, and the match ends at the end of the path or at a `/` |
| GithubDownloader.MatchPathExact | resources/app/software/github_downloader/github_downloader.py:125-126 | the path matcher returns `(owner, repo)` if and only if the path is `owner/repo`, optionally followed by `/...`, with both segments non-empty and `/`-free |
| GithubDownloader.MatchRepositorySound | resources/app/software/github_downloader/github_downloader.py:124-131 | every match is the owner and repository that directly follow `https://github.com/` or `http://github.com/` |
| GithubDownloader.MatchHttp | resources/app/software/github_downloader/github_downloader.py:125 | after `http://github.com/` only the path is examined |
| GithubDownloader.MatchHttps | resources/app/software/github_downloader/github_downloader.py:125 | after `https://github.com/` only the path is examined |
| GithubDownloader.ParseGithubUrl | resources/app/software/github_downloader/github_downloader.py:116-131 | a successful parse yields two `/`-free segments that directly follow `https://github.com/` or `http://github.com/` once leading `@`s are removed; an address with neither prefix is rejected; every failure reports the invalid-address message |
| GithubDownloader.MatchRepositoryUrl | resources/app/software/github_downloader/github_downloader.py:124-131 | the matcher reads back the owner and repository of a repository address, ignoring a further `/...` |
| GithubDownloader.ParseHttpUrl | resources/app/software/github_downloader/github_downloader.py:116-131 | corrected: an `http://` repository address parses back to its owner and repository (as written, `http://github.com/u/digit` is read as repository `d`, like its `https://` form) |
| GithubDownloader.MatchRepositoryEmpty | resources/app/software/github_downloader/github_downloader.py:125-129 | an address with an empty repository segment does not match |
| GithubDownloader.AsWrittenStripsCharacters | resources/app/software/github_downloader/github_downloader.py:122 | as written, the repository name loses every trailing `.`, `g`, `i`, `t`, and is rejected when nothing is left |
| GithubDownloader.AsWrittenDigit | resources/app/software/github_downloader/github_downloader.py:122-131 | as written, `https://github.com/user/digit` parses as repository `d` |
| GithubDownloader.AsWrittenTig | resources/app/software/github_downloader/github_downloader.py:122-129 | as written, the valid address `https://github.com/u/tig` is rejected |
| GithubDownloader.ParseRepositoryUrl | resources/app/software/github_downloader/github_downloader.py:116-131 | the corrected parser returns every repository name as written, with or without one `.git` suffix (round trip) |
| GithubDownloader.ParseDigit | resources/app/software/github_downloader/github_downloader.py:116-131 | the corrected parser reads `digit` in full |
| GithubDownloader.ParseDownloadUrl | resources/app/software/github_downloader/github_downloader.py:139 | the archive address parses back to the same owner and repository |
| GithubDownloader.PlanDownloadOutcome | resources/app/software/github_downloader/github_downloader.py:133-153 | invalid address first, then blank save directory; otherwise the archive of the parsed repository is saved as `<repo>-main.zip` in the stripped directory |
| GithubDownloader.AsWrittenPlanDigit | resources/app/software/github_downloader/github_downloader.py:122-147 | as written, asking for `user/digit` plans the archive of `user/d`; the corrected plan fetches `user/digit` |
| GithubDownloader.FailureStatus | resources/app/software/github_downloader/github_downloader.py:175-176 | the failure message can be read back from behind the `克隆失败: ` prefix |
| GithubDownloader.StatusAfterPlanReports | resources/app/software/github_downloader/github_downloader.py:133-176 | for the program as written and for the corrected parser alike: a failed plan shows the failure prefix followed by its message, the invalid-address message for a rejected address; a planned download shows `owner/repo` after the progress prefix |
| GithubDownloader.AsWrittenStatusTig | resources/app/software/github_downloader/github_downloader.py:119-176 | as written, `https://github.com/u/tig` ends in the invalid-address failure; the corrected parser announces `u/tig` |
| GithubDownloader.ZipPathParts | resources/app/software/github_downloader/github_downloader.py:146-147 | the download path splits back into the save directory and the zip name |
| GithubDownloader.StartGuard | resources/app/software/github_downloader/github_downloader.py:194-198 | a blank address shows the "enter an address" warning, and only a blank one |
| GithubDownloader.DevelopmentDir | resources/app/software/github_downloader/github_downloader.py:215-217 | a script in `<parent>/github_downloader` uses `parent` |
| CosDownloader.UnquoteWithoutPercent | resources/app/software/cos_downloader/cos_downloader.py:116-120 | a name without `%` is returned unchanged |
| CosDownloader.PercentBytesEncode | resources/app/software/cos_downloader/cos_downloader.py:120 | reading `%XX` escapes gives back the encoded bytes |
| CosDownloader.UnquoteEncoded | resources/app/software/cos_downloader/cos_downloader.py:116-120 | `unquote` undoes percent-encoding: the decoder sees exactly the original bytes |
| CosDownloader.LastSegment | resources/app/software/cos_downloader/cos_downloader.py:127 | `split('/')[-1]` is a `/`-free suffix that follows a `/` unless it is the whole address |
| CosDownloader.PlanDownloadPlacement | resources/app/software/cos_downloader/cos_downloader.py:124-132 | as written: an error exactly when the decoded name is empty; a decoded name without `/` lands directly in the software directory under that name; a decoded name starting with `/` replaces the software directory |
| CosDownloader.AsWrittenEscapes | resources/app/software/cos_downloader/cos_downloader.py:127-132 | as written, `h/%2Fx` is saved at `/x`, outside the software directory; the corrected plan refuses it |
| CosDownloader.PlanDownloadContained | resources/app/software/cos_downloader/cos_downloader.py:124-149 | corrected: a download is planned exactly when the decoded name is a plain name, and its status announces that name |
| CosDownloader.ContainedStaysInSoftwareDir | resources/app/software/cos_downloader/cos_downloader.py:124-149 | corrected: every planned file lands directly in the software directory under the decoded name; the plan agrees with the program for plain names and rejects an empty name as the program does |
| CosDownloader.FailureStatus | resources/app/software/cos_downloader/cos_downloader.py:158-159 | the failure message can be read back from behind the `下载失败: ` prefix |
| CosDownloader.FinalStatusReports | resources/app/software/cos_downloader/cos_downloader.py:124-159 | a missing name, an unsafe name and a failed transfer end behind the failure prefix, with the message readable after it; a completed transfer never does, and reports extraction exactly for `.zip` names |
| CosDownloader.TrailingSlashHasNoName | resources/app/software/cos_downloader/cos_downloader.py:127-129 | an address ending in `/` is rejected for lack of a file name |
| CosDownloader.QueryStringIsKept | resources/app/software/cos_downloader/cos_downloader.py:127-149 | a query string stays in the file name, so `a.zip?x=1` is neither trimmed nor extracted |
| CosDownloader.ExtractPassword | resources/app/software/cos_downloader/cos_downloader.py:155 | the password passed to `extractall` is `None` on both arms |
| CosDownloader.StartGuard | resources/app/software/cos_downloader/cos_downloader.py:167-171 | a blank address shows the "enter a download address" warning, and only a blank one |
| CosDownloader.DevelopmentDir | resources/app/software/cos_downloader/cos_downloader.py:70-72 | a script in `<parent>/cos_downloader` uses `parent` |
| LaunchFiles.HexOf | resources/app/software_manager.js:126 | `toString('hex')` writes two characters per byte |
| LaunchFiles.IsZipMagic | resources/app/software_manager.js:126 | the package counts as a ZIP archive exactly when it starts with the bytes `50 4B 03 04` |
| LaunchFiles.AsWrittenOverwritesUserData | resources/app/software_manager.js:141-151 | as written, `data/x.json` in the archive overwrites the user's `x.json` |
| LaunchFiles.CopyDataFilesCovers | resources/app/software_manager.js:141-151 | corrected: afterwards the file of every data entry is present, and nothing present before is gone |
| LaunchFiles.CopyDataFilesNeverOverwrites | resources/app/software_manager.js:141-151 | corrected: only data files are copied, none onto a file present before, no two onto the same name |
| LaunchFiles.NothingToCopy | resources/app/software_manager.js:141-151 | corrected: when every data entry's file is present, nothing is copied |
| LaunchFiles.SecondCopyIsEmpty | resources/app/software_manager.js:141-151 | corrected: starting the same package twice copies nothing the second time (idempotence) |
| LaunchFiles.AsWrittenRecopies | resources/app/software_manager.js:141-151 | as written, `data/x.json` is copied again at every start, onto the `x.json` the previous start wrote |
| LaunchFiles.TopLevelEntriesAgree | resources/app/software_manager.js:148-149 | for top-level entries the code as written and the corrected version agree |
| LaunchFiles.LexLeTotal | resources/app/software_manager.js:163 | the default sort order is total |
| LaunchFiles.LexLeAntisymmetric | resources/app/software_manager.js:163 | the default sort order is antisymmetric |
| LaunchFiles.LexLeTransitive | resources/app/software_manager.js:163 | the default sort order is transitive |
| LaunchFiles.PythonFiles | resources/app/software_manager.js:161-162 | a name is kept if and only if it is listed and ends in `.py`, ignoring case |
| LaunchFiles.Least | resources/app/software_manager.js:161-166 | the chosen name is listed and no listed name sorts before it |
| LaunchFiles.SortedFirstIsLeast | resources/app/software_manager.js:161-166 | the first element of any sorted permutation is that least name |
| LaunchFiles.SelectMainFilePriority | resources/app/software_manager.js:157-170 | `__main__.py`, then `<code>.py`, then the least Python file; an error exactly when no Python file is listed |
| LaunchFiles.PythonSuffix | resources/app/software_manager.js:162 | every `.py` name passes the filter |
| LaunchPlan.SplitIv | resources/app/software_manager.js:70-71 | the vector and the ciphertext concatenate back to the package; the vector has at most 16 bytes |
| LaunchPlan.LazyEndIsLazyMatch | resources/app/software_manager.js:88 | the lazy `.*?-\*-\n` ends just past the first `-*-\n` it reaches, crossing no line terminator; when it finds none, every later `-*-\n` lies beyond a line terminator |
| LaunchPlan.MatchAt | resources/app/software_manager.js:88 | a match starts with the declaration prefix, covers at least the prefix and `-*-\n`, and never runs past the text; text without the prefix has no match |
| LaunchPlan.MatchAtIsDeclaration | resources/app/software_manager.js:88 | a match ends with the first `-*-\n` after the prefix, and nothing between them is a line terminator |
| LaunchPlan.ScrubKeepsUndeclared | resources/app/software_manager.js:88 | text in which no `# -*- coding:` starts passes through the replace untouched, so ordinary comments and a shebang line are kept |
| LaunchPlan.ScrubKeepsPlainText | resources/app/software_manager.js:88 | text without `#` passes through the replace untouched |
| LaunchPlan.ScrubRemovesDeclaration | resources/app/software_manager.js:88 | every single-line declaration is removed, even when its text contains `-*-` |
| LaunchPlan.ScrubKeepsCrlfDeclaration | resources/app/software_manager.js:88 | a declaration ended by `\r\n` is kept, because `.` does not match `\r` |
| LaunchPlan.ScrubIsOnePass | resources/app/software_manager.js:88 | the replace is a single pass: a declaration formed by a removal stays |
| LaunchPlan.NormalizeHeaderShape | resources/app/software_manager.js:85-89 | the result starts with the UTF-8 declaration, and trimmed text in which no `# -*- coding:` starts follows it unchanged |
| LaunchPlan.PlanLaunchBranches | resources/app/software_manager.js:126-186 | archives succeed exactly when an entry point is found; decrypted sources go to `_temp.py` with the declaration, from a decipher run on the split package |
| ProcessRegistry.ExitCodeText | resources/app/software_manager.js:232-235 | the printed code is never empty |
| ProcessRegistry.OnClose | resources/app/software_manager.js:231-238 | the run resolves if and only if the exit code is 0; every other code, and `null`, rejects with the failure message |
| ProcessRegistry.OnError | resources/app/software_manager.js:242-259 | a start failure rejects with the launch-failure prefix followed by the message |
| ProcessRegistry.CloseReportRoundTrip | resources/app/software_manager.js:231-238 | the exit code, or its absence, can be read back from the report |
| ProcessRegistry.LaunchFailureIsNotExit | resources/app/software_manager.js:235-243 | a launch failure never reads as an exit report |
| ProcessRegistry.Register | resources/app/software_manager.js:262 | the code maps to the new process and every other entry is unchanged |
| ProcessRegistry.Stop | resources/app/software_manager.js:271-279 | a registered code's process is killed and removed with one notice; an unknown code changes nothing and sends nothing |
| ProcessRegistry.StopAll | resources/app/software_manager.js:281-288 | every registered process is killed, the map is emptied, and the notice is sent even when nothing ran |
| ProcessRegistry.StopUndoesRegister | resources/app/software_manager.js:262-279 | stopping a freshly started code restores the registry and kills exactly that process |
| ProcessRegistry.StopIdempotent | resources/app/software_manager.js:271-279 | a second stop of the same code kills nothing and is silent |
| ProcessRegistry.RestartForgetsEarlierProcess | resources/app/software_manager.js:262 | restarting a running code replaces its entry, so only the newer process can be stopped |
| ProcessRegistry.StopThenStopAll | resources/app/software_manager.js:271-288 | stopping one code and then all the rest kills each registered process exactly once |
| ProcessRegistry.ReplayLive | resources/app/software_manager.js:217-288 | after any session the registry holds exactly the codes started and not stopped since, each with its latest process |
| ProcessRegistry.ExitedStaysRegistered | resources/app/software_manager.js:217-238 | the `close` handler does not remove the process from the map |

## Left out

- Tk and Electron user interfaces: widgets, message boxes, the exit confirmation, focus handling, the welcome text, and the IPC channels `terminal-output` / `terminal-error` / `terminal-clear`. The model records which text goes to which channel.
- Threads and timing. The reader thread, `process_output` polling every 100 ms, daemon threads and the download threads are not modelled. `read_output` is modelled as a loop over pairs of already-read lines.
- Running commands. `subprocess.Popen` with `shell=True`, the system encoding with `errors='replace'`, `process.poll()` and the two `except` branches of `run_command` are not modelled. The return code is a parameter.
- `cd`: the target is modelled before `expanduser`/`expandvars`. `os.chdir`, its failure message and the directory label are file-system effects.
- `modify_pip_command`: creating `Lib/site-packages` is a file-system effect. `sys.executable` and the site-packages path are parameters.
- Text.Lower: lower-cases ASCII letters only. Python's `str.lower` and JavaScript's `toLowerCase` also fold other scripts; the commands, suffixes and phrases compared here are ASCII.
- LaunchFiles.LexLe: compares code points. This agrees with the UTF-16 code-unit order of the default `sort()` only within the Basic Multilingual Plane.
- LaunchFiles.SelectMainFile: the listing is the package's top-level names. A software code containing `/` would make `existsSync` look into a subdirectory, and that case is not modelled.
- LaunchFiles.CopyDataFiles: an entry is taken to be written under its base name. That is adm-zip's `extractEntryTo` with `maintainEntryPath` false, which is a library outside this model.
- The rest of `runSoftware` is not modelled, because it is all file-system and process effects:
  - the `.enc` existence check and its error;
  - creating the work and temporary directories, and the `Date.now()` directory name;
  - `extractAllTo`;
  - writing `_temp.py`;
  - `spawn` with its environment;
  - the forwarding of stdout/stderr chunks;
  - temporary-file cleanup in the `close` and `error` handlers.
- `cleanupTempDir`, the constructor and the `exit`/`SIGINT`/`SIGTERM` handlers are file-system and process effects.
- AES-256-CBC and UTF-8 decoding are the parameters `decipher` and `decode`. Only the key constant and the 16-byte split are modelled.
- ProcessRegistry.StopAll: the order in which processes are killed (map insertion order) and the console log lines are not modelled. `killed` is a map from code to process.
- Paths follow `posixpath`. On Windows, Python uses `ntpath` and Node uses `path.win32`, whose separators and drive rules differ.
- `os.path.abspath`, `exists`/`isdir` and `makedirs` in `get_software_dir` are the parameters `resolve`, `isDir` and `canCreate`. The `except` branch is the `canCreate = false` case.
- `update_progress` is floating-point progress-bar arithmetic. `urlretrieve`, zip extraction, `os.remove`, and the GitHub downloader's auto-extract check box and final status texts are transfer and file-system effects.
- CosDownloader.ExtractPassword: the condition's `encode('cp437')` can raise for names outside code page 437, and that would fail the download after the transfer. The model only states that the value is `None` on both arms. `lossy` stands for the per-name comparison.
- GithubDownloader.PlanDownloadOutcome: the plan is built on the corrected parser `ParseGithubUrl`. The program's own plan is `PlanDownloadAsWritten`, on `ParseGithubUrlAsWritten`, and AsWrittenPlanDigit shows where the two differ.
- CosDownloader.FinalStatusReports: the status uses the corrected plan `PlanDownloadContained`. As written, an unsafe name is not refused and is downloaded wherever `join` puts it.
- LaunchFiles.CopyDataFiles: the existence test is an exact, case-sensitive membership test. On Windows, `existsSync` (software_manager.js:148) ignores letter case, so a user's `Data.json` would count as present for an entry `data.json`.
- LaunchFiles.SelectMainFile: the `__main__.py` and `<code>.py` tests (software_manager.js:158-160) are exact-case for the same reason, while Windows would also find `__MAIN__.py`.
- `decode_filename`'s bare `except` is not modelled, because `unquote` on a `str` does not raise.
- Unquote: the `decode` parameter stands for UTF-8 decoding with `errors='replace'` of each percent-decoded run of ASCII characters.

## Findings

| source | as written | input that shows it | evidently intended | confidence | as-written member | corrected member |
|---|---|---|---|---|---|---|
| resources/app/software/github_downloader/github_downloader.py:122 | `url.rstrip('.git')` strips any trailing run of the characters `.`, `g`, `i`, `t` | `https://github.com/user/digit` is read as repository `d`; `https://github.com/u/tig` is rejected as invalid | remove one trailing `.git` suffix, as the comment on line 121 says | high, not executed | GithubDownloader.ParseGithubUrlAsWritten, GithubDownloader.AsWrittenDigit, GithubDownloader.AsWrittenTig, GithubDownloader.PlanDownloadAsWritten, GithubDownloader.AsWrittenPlanDigit, GithubDownloader.AsWrittenStatusTig | GithubDownloader.ParseGithubUrl, GithubDownloader.RemoveGitSuffix, GithubDownloader.ParseRepositoryUrl, GithubDownloader.ParseDigit, GithubDownloader.ParseHttpUrl |
| resources/app/software_manager.js:141-151 | the existence test checks `join(workDir, entry.entryName)`, but `extractEntryTo(entry, workDir, false, true)` writes to `join(workDir, basename(entryName))` with overwrite on | an archive entry `data/x.json` while the work directory already holds the user's `x.json`: the test finds no `data/x.json`, and the user's file is overwritten; for the same reason every later start copies `data/x.json` again | do not overwrite user data files that already exist, as the comment on line 143 says | medium (depends on adm-zip writing under the base name when the entry path is not kept), not executed | LaunchFiles.CopyDataFilesAsWritten, LaunchFiles.AsWrittenOverwritesUserData, LaunchFiles.AsWrittenRecopies | LaunchFiles.CopyDataFiles, LaunchFiles.CopyDataFilesNeverOverwrites, LaunchFiles.SecondCopyIsEmpty, LaunchFiles.CopyDataFilesCovers, LaunchFiles.NothingToCopy |
| resources/app/software/cos_downloader/cos_downloader.py:127-132 | the file name is percent-decoded after the address is split at `/`, and then joined to the software directory unchecked | `h/%2Fx`: the decoded name is `/x`, and `join(software_dir, '/x')` is `/x`, outside the software directory; `..%2Fx` likewise gives `<software_dir>/../x` | save the file inside the software directory: the name is meant to be a file name (`url.split('/')[-1]`), and a `.zip` is extracted into that same directory | medium (the address comes from the user, so the effect is a misplaced file rather than an attack), not executed | CosDownloader.PlanDownload, CosDownloader.PlanDownloadPlacement, CosDownloader.AsWrittenEscapes | CosDownloader.PlanDownloadContained, CosDownloader.ContainedStaysInSoftwareDir, CosDownloader.FinalStatusReports |
