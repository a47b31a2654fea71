/** The running programs of the software manager (software_manager.js):
    how a finished program is reported, and the map from software code to the
    process started for it, with `stopSoftware` and `stopAllSoftware`. The
    process handle is a type parameter: killing it is recorded, not performed. */
module ProcessRegistry {
  import opened Results
  import opened Text

  const CompletedPrefix := "\n程序执行完成，退出码: "
  const FailedPrefix := "程序异常退出，退出码: "
  const LaunchFailedPrefix := "启动程序失败: "
  const StoppedNotice := "\n程序已停止运行"
  const AllStoppedNotice := "\n所有程序已停止运行"

  /** How the promise of `runSoftware` settles, with the text sent to the
      terminal: `Resolved` text goes out as output, `Rejected` text as an error
      and as the message of the rejection. */
  datatype Outcome = Resolved(output: string) | Rejected(error: string)

  /** `${code}`: the exit code, or `null` when the process was ended by a signal. */
  function ExitCodeText(code: Option<int>): (r: string)
    ensures r != []
  {
    match code
    case None => "null"
    case Some(c) => IntToDecimal(c)
  }

  /** The `close` handler: only exit code 0 resolves. */
  function OnClose(code: Option<int>): (r: Outcome)
    ensures r.Resolved? <==> code == Some(0)
    ensures r.Resolved? ==> r.output == CompletedPrefix + "0"
    ensures r.Rejected? ==> StartsWith(r.error, FailedPrefix)
  {
    if code == Some(0) then Resolved(CompletedPrefix + ExitCodeText(code))
    else Rejected(FailedPrefix + ExitCodeText(code))
  }

  /** The `error` handler: the process could not be started. */
  function OnError(message: string): (r: Outcome)
    ensures r.Rejected? && StartsWith(r.error, LaunchFailedPrefix)
    ensures r.error[|LaunchFailedPrefix|..] == message
  {
    Rejected(LaunchFailedPrefix + message)
  }

  /** Reads the exit code back from a printed code. */
  function ParseExitCode(t: string): Option<Option<int>>
  {
    if t == "null" then Some(None)
    else match ParseInt(t)
      case Some(c) => Some(Some(c))
      case None => None
  }

  /** The exit code an outcome reports, if it is an exit report at all. */
  function ReportedCode(o: Outcome): Option<Option<int>>
  {
    match o
    case Resolved(t) => if StartsWith(t, CompletedPrefix) then ParseExitCode(t[|CompletedPrefix|..]) else None
    case Rejected(t) => if StartsWith(t, FailedPrefix) then ParseExitCode(t[|FailedPrefix|..]) else None
  }

  /** A printed exit code never reads as `null`. */
  lemma DecimalIsNotNull(c: int)
    ensures IntToDecimal(c) != "null"
  {
    var d := NatToDecimal(if c < 0 then -c else c);
    assert IsDigit(d[0]);
    if c >= 0 {
      assert IntToDecimal(c)[0] == d[0];
    } else {
      assert IntToDecimal(c)[0] == '-';
    }
  }

  /** The exit report loses nothing: the exit code, or its absence, can be
      read back from the message. */
  lemma CloseReportRoundTrip(code: Option<int>)
    ensures ReportedCode(OnClose(code)) == Some(code)
  {
    var t := ExitCodeText(code);
    match code
    case None =>
    case Some(c) =>
      DecimalIsNotNull(c);
      IntToDecimalRoundTrip(c);
    var o := OnClose(code);
    if o.Resolved? {
      assert o.output[|CompletedPrefix|..] == t;
    } else {
      assert o.error[|FailedPrefix|..] == t;
    }
  }

  /** A launch failure is never taken for an exit report. */
  lemma LaunchFailureIsNotExit(message: string)
    ensures ReportedCode(OnError(message)) == None
  {
    assert OnError(message).error[0] == LaunchFailedPrefix[0];
  }

  // ---------------------------------------------------------------------------
  // `this.processes`

  /** Stopping: the registry left, the processes killed (by code), and the
      notices sent to the terminal. */
  datatype Stopped<P> = Stopped(registry: map<string, P>, killed: map<string, P>, notices: seq<string>)

  /** `this.processes.set(softwareCode, pythonProcess)` on every start, even
      when a process for the same code is still registered. */
  function Register<P>(registry: map<string, P>, code: string, process: P): (r: map<string, P>)
    ensures r.Keys == registry.Keys + {code}
    ensures r[code] == process
    ensures forall k :: k in registry && k != code ==> r[k] == registry[k]
  {
    registry[code := process]
  }

  /** `stopSoftware`: kill and forget the process of one code; an unknown code
      does nothing and sends nothing. */
  function Stop<P>(registry: map<string, P>, code: string): (r: Stopped<P>)
    ensures r.registry.Keys == registry.Keys - {code}
    ensures forall k :: k in r.registry ==> r.registry[k] == registry[k]
    ensures code in registry ==> r.killed == map[code := registry[code]] && r.notices == [StoppedNotice]
    ensures code !in registry ==> r.killed == map[] && r.notices == []
  {
    if code in registry then Stopped(registry - {code}, map[code := registry[code]], [StoppedNotice])
    else Stopped(registry, map[], [])
  }

  /** `stopAllSoftware`: kill every registered process and clear the map; the
      notice is sent even when nothing was running. */
  function StopAll<P>(registry: map<string, P>): (r: Stopped<P>)
    ensures r.registry == map[] && r.killed == registry && r.notices == [AllStoppedNotice]
  {
    Stopped(map[], registry, [AllStoppedNotice])
  }

  /** Starting and then stopping a code that was not running leaves the
      registry as it was and kills exactly the started process. */
  lemma StopUndoesRegister<P>(registry: map<string, P>, code: string, process: P)
    requires code !in registry
    ensures Stop(Register(registry, code, process), code).registry == registry
    ensures Stop(Register(registry, code, process), code).killed == map[code := process]
  {
    assert Register(registry, code, process) - {code} == registry;
  }

  /** Stopping twice is stopping once: the second stop kills nothing and is silent. */
  lemma StopIdempotent<P>(registry: map<string, P>, code: string)
    ensures Stop(Stop(registry, code).registry, code).registry == Stop(registry, code).registry
    ensures Stop(Stop(registry, code).registry, code).killed == map[]
    ensures Stop(Stop(registry, code).registry, code).notices == []
  {
  }

  /** Starting a code that is still running replaces its entry: the earlier
      process is no longer reachable by `stopSoftware` or `stopAllSoftware`. */
  lemma RestartForgetsEarlierProcess<P>(registry: map<string, P>, code: string, process: P)
    ensures Stop(Register(registry, code, process), code).killed == map[code := process]
    ensures StopAll(Register(registry, code, process)).killed[code] == process
  {
  }

  /** Stopping one code and then all the rest kills every registered process
      exactly once. */
  lemma StopThenStopAll<P>(registry: map<string, P>, code: string)
    ensures Stop(registry, code).killed.Keys !! StopAll(Stop(registry, code).registry).killed.Keys
    ensures Stop(registry, code).killed + StopAll(Stop(registry, code).registry).killed == registry
  {
    var s := Stop(registry, code);
    var all := s.killed + StopAll(s.registry).killed;
    assert all.Keys == registry.Keys;
  }

  // ---------------------------------------------------------------------------
  // A session of starts, exits and stops.

  datatype Event<P> =
    | Started(code: string, process: P)
    | Exited(code: string, exitCode: Option<int>) // the `close` event of one process
    | StopOne(code: string)
    | StopEverything

  /** The registry after one event. The `close` handler settles the promise
      but leaves the map alone. */
  function Apply<P>(registry: map<string, P>, e: Event<P>): map<string, P>
  {
    match e
    case Started(c, p) => Register(registry, c, p)
    case Exited(_, _) => registry
    case StopOne(c) => Stop(registry, c).registry
    case StopEverything => StopAll(registry).registry
  }

  function Replay<P>(events: seq<Event<P>>): map<string, P>
    decreases |events|
  {
    if events == [] then map[] else Apply(Replay(events[..|events| - 1]), events[|events| - 1])
  }

  /** A code is registered when it was started and neither it alone nor
      everything has been stopped since; an exit does not count. */
  predicate Live<P>(events: seq<Event<P>>, code: string)
    decreases |events|
  {
    if events == [] then false
    else
      var rest := events[..|events| - 1];
      match events[|events| - 1]
      case Started(c, _) => c == code || Live(rest, code)
      case Exited(_, _) => Live(rest, code)
      case StopOne(c) => c != code && Live(rest, code)
      case StopEverything => false
  }

  /** The process of the last start of `code`. */
  function LastStart<P>(events: seq<Event<P>>, code: string): Option<P>
    decreases |events|
  {
    if events == [] then None
    else match events[|events| - 1]
      case Started(c, p) => if c == code then Some(p) else LastStart(events[..|events| - 1], code)
      case _ => LastStart(events[..|events| - 1], code)
  }

  /** The registry holds exactly the live codes, each with the process of its
      most recent start. */
  lemma {:induction false} ReplayLive<P>(events: seq<Event<P>>, code: string)
    ensures code in Replay(events) <==> Live(events, code)
    ensures code in Replay(events) ==> LastStart(events, code) == Some(Replay(events)[code])
    decreases |events|
  {
    if events != [] {
      ReplayLive(events[..|events| - 1], code);
    }
  }

  /** A program that has exited stays registered until it is stopped. */
  lemma ExitedStaysRegistered<P>(events: seq<Event<P>>, code: string, p: P, exitCode: Option<int>)
    ensures code in Replay(events + [Started(code, p), Exited(code, exitCode)])
  {
    var e1 := events + [Started(code, p)];
    var e2 := e1 + [Exited(code, exitCode)];
    assert e2[..|e2| - 1] == e1;
    assert e1[..|e1| - 1] == events;
  }
}
