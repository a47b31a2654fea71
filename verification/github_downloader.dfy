/** The GitHub window (github_downloader.py): turning a repository address
    into an owner and a repository name, the archive address and file name
    built from them, and the order in which `download_file` fails. */
module GithubDownloader {
  import opened Results
  import opened Text
  import opened PosixPath
  import opened DownloadCommon

  const InvalidAddress := "无效的GitHub仓库地址"
  const MissingSaveDir := "请选择保存位置"
  const EmptyAddressWarning := "请输入GitHub仓库地址"
  const ToolDir := "github_downloader"

  const HttpsPrefix := "https://github.com/"
  const HttpPrefix := "http://github.com/"

  /** `url.lstrip('@')`. */
  function LstripAt(s: string): (r: string)
    ensures |r| <= |s| && r == s[|s| - |r|..]
    ensures forall i :: 0 <= i < |s| - |r| ==> s[i] == '@'
    ensures r != [] ==> r[0] != '@'
    decreases |s|
  {
    if |s| > 0 && s[0] == '@' then LstripAt(s[1..]) else s
  }

  /** The removal of one trailing `.git`, which the comment on line 121 of
      github_downloader.py describes; line 122 strips characters instead. */
  function RemoveGitSuffix(u: string): (v: string)
    ensures |v| <= |u| && v == u[..|v|]
    ensures EndsWith(u, ".git") ==> v + ".git" == u
    ensures !EndsWith(u, ".git") ==> v == u
  {
    if EndsWith(u, ".git") then u[..|u| - 4] else u
  }

  /** The characters of the argument of `rstrip('.git')`: a set, not a suffix. */
  predicate IsRstripChar(c: char)
  {
    c == '.' || c == 'g' || c == 'i' || c == 't'
  }

  /** The longest prefix without `/` (what a greedy `[^/]+` consumes). */
  function Segment(s: string): (r: string)
    ensures |r| <= |s| && r == s[..|r|]
    ensures forall i :: 0 <= i < |r| ==> r[i] != '/'
    ensures |r| < |s| ==> s[|r|] == '/'
    decreases |s|
  {
    if |s| == 0 || s[0] == '/' then [] else [s[0]] + Segment(s[1..])
  }

  /** `re.match(r'https?://github\.com/([^/]+)/([^/]+)', url)`: anchored at
      the start, not at the end. */
  function MatchRepository(url: string): (r: Option<(string, string)>)
    ensures !StartsWith(url, HttpsPrefix) && !StartsWith(url, HttpPrefix) ==> r == None
    ensures r.Some? ==> IsSegment(r.value.0) && IsSegment(r.value.1)
  {
    if StartsWith(url, HttpsPrefix) then MatchPath(url[|HttpsPrefix|..])
    else if StartsWith(url, HttpPrefix) then MatchPath(url[|HttpPrefix|..])
    else None
  }

  /** A match is the leading `<owner>/<repo>` after one of the two prefixes. */
  lemma MatchRepositorySound(url: string)
    ensures MatchRepository(url).Some? ==>
      var (owner, repo) := MatchRepository(url).value;
      StartsWith(url, HttpsPrefix + (owner + "/" + repo)) || StartsWith(url, HttpPrefix + (owner + "/" + repo))
  {
    var m := MatchRepository(url);
    if m.Some? {
      var q := m.value.0 + "/" + m.value.1;
      if StartsWith(url, HttpsPrefix) {
        assert m == MatchPath(url[|HttpsPrefix|..]);
        StartsWithThen(url, HttpsPrefix, q);
      } else {
        assert m == MatchPath(url[|HttpPrefix|..]);
        StartsWithThen(url, HttpPrefix, q);
      }
    }
  }

  /** `([^/]+)/([^/]+)` at the start of what follows `github.com/`: the
      owner and the repository are the two leading segments, and the
      repository segment runs to the end or to a further `/`. */
  function MatchPath(rest: string): (r: Option<(string, string)>)
    ensures r.Some? ==> IsSegment(r.value.0) && IsSegment(r.value.1)
    ensures r.Some? ==> StartsWith(rest, r.value.0 + "/" + r.value.1)
    ensures r.Some? ==> var n := |r.value.0| + 1 + |r.value.1|; n == |rest| || rest[n] == '/'
  {
    var owner := Segment(rest);
    if owner == [] || |owner| == |rest| then None
    else
      var repo := Segment(rest[|owner| + 1..]);
      if repo == [] then None
      else
        assert rest[..|owner| + 1 + |repo|] == owner + "/" + repo by {
          assert rest[..|owner|] == owner && rest[|owner|] == '/';
          assert rest[|owner| + 1..][..|repo|] == repo;
        }
        Some((owner, repo))
  }

  /** The matcher is exact: it returns an owner and a repository exactly when
      the text starts with `<owner>/<repo>` and the repository segment is
      followed by the end or by `/`. */
  lemma MatchPathExact(rest: string, owner: string, repo: string)
    ensures MatchPath(rest) == Some((owner, repo)) <==>
      && IsSegment(owner) && IsSegment(repo)
      && StartsWith(rest, owner + "/" + repo)
      && (|owner| + 1 + |repo| == |rest| || rest[|owner| + 1 + |repo|] == '/')
  {
    var n := |owner| + 1 + |repo|;
    if IsSegment(owner) && IsSegment(repo) && StartsWith(rest, owner + "/" + repo)
       && (n == |rest| || rest[n] == '/')
    {
      var tail := rest[n..];
      assert rest == owner + "/" + repo + tail by {
        assert rest == rest[..n] + rest[n..];
      }
      MatchPathSegments(owner, repo, tail);
    }
  }

  lemma MatchHttp(rest: string)
    ensures MatchRepository(HttpPrefix + rest) == MatchPath(rest)
  {
    assert (HttpPrefix + rest)[..|HttpPrefix|] == HttpPrefix;
    assert (HttpPrefix + rest)[|HttpPrefix|..] == rest;
    assert !StartsWith(HttpPrefix + rest, HttpsPrefix) by {
      assert (HttpPrefix + rest)[4] == ':';
    }
  }

  lemma MatchHttps(rest: string)
    ensures MatchRepository(HttpsPrefix + rest) == MatchPath(rest)
  {
    assert (HttpsPrefix + rest)[..|HttpsPrefix|] == HttpsPrefix;
    assert (HttpsPrefix + rest)[|HttpsPrefix|..] == rest;
  }

  /** `parse_github_url` as written: `lstrip('@')`, then `rstrip('.git')`,
      which removes every trailing `.`, `g`, `i` and `t`. */
  function ParseGithubUrlAsWritten(url: string): Result<(string, string)>
  {
    match MatchRepository(TrimEnd(LstripAt(url), IsRstripChar))
    case Some(p) => Ok(p)
    case None => Err(InvalidAddress)
  }

  /** `parse_github_url` as its comment describes it: a trailing `.git`, if
      present, is removed once. */
  function ParseGithubUrl(url: string): (r: Result<(string, string)>)
    ensures r.Ok? ==> IsSegment(r.value.0) && IsSegment(r.value.1)
    ensures r.Ok? ==>
      StartsWith(LstripAt(url), HttpsPrefix + (r.value.0 + "/" + r.value.1))
      || StartsWith(LstripAt(url), HttpPrefix + (r.value.0 + "/" + r.value.1))
    ensures !StartsWith(LstripAt(url), HttpsPrefix) && !StartsWith(LstripAt(url), HttpPrefix)
      ==> r == Err(InvalidAddress)
    ensures r.Err? ==> r.message == InvalidAddress
  {
    var u := LstripAt(url);
    var v := RemoveGitSuffix(u);
    StartsWithPrefixOf(u, v, HttpsPrefix);
    StartsWithPrefixOf(u, v, HttpPrefix);
    match MatchRepository(v)
    case Some(p) =>
      MatchRepositorySound(v);
      StartsWithPrefixOf(u, v, HttpsPrefix + (p.0 + "/" + p.1));
      StartsWithPrefixOf(u, v, HttpPrefix + (p.0 + "/" + p.1));
      Ok(p)
    case None => Err(InvalidAddress)
  }

  predicate IsSegment(s: string)
  {
    s != [] && forall i :: 0 <= i < |s| ==> s[i] != '/'
  }

  function RepositoryUrl(owner: string, repo: string): string
  {
    HttpsPrefix + owner + "/" + repo
  }

  lemma {:induction false} SegmentOf(u: string, rest: string)
    requires forall i :: 0 <= i < |u| ==> u[i] != '/'
    requires rest == [] || rest[0] == '/'
    ensures Segment(u + rest) == u
    decreases |u|
  {
    if |u| > 0 {
      assert (u + rest)[1..] == u[1..] + rest;
      SegmentOf(u[1..], rest);
    } else {
      assert u + rest == rest;
    }
  }

  /** The matcher reads the owner and repository back from a repository
      address, and ignores whatever follows a further `/`. */
  lemma MatchRepositoryUrl(owner: string, repo: string, tail: string)
    requires IsSegment(owner) && IsSegment(repo)
    requires tail == [] || tail[0] == '/'
    ensures MatchRepository(RepositoryUrl(owner, repo) + tail) == Some((owner, repo))
  {
    var r := owner + "/" + repo + tail;
    assert RepositoryUrl(owner, repo) + tail == HttpsPrefix + r;
    MatchHttps(r);
    MatchPathSegments(owner, repo, tail);
  }

  lemma MatchPathSegments(owner: string, repo: string, tail: string)
    requires IsSegment(owner) && IsSegment(repo)
    requires tail == [] || tail[0] == '/'
    ensures MatchPath(owner + "/" + repo + tail) == Some((owner, repo))
  {
    var r := owner + "/" + repo + tail;
    SegmentOf(owner, "/" + repo + tail);
    assert owner + ("/" + repo + tail) == r;
    assert r[|owner| + 1..] == repo + tail;
    SegmentOf(repo, tail);
  }

  /** An empty repository segment is not matched. */
  lemma MatchRepositoryEmpty(owner: string)
    requires IsSegment(owner)
    ensures MatchRepository(HttpsPrefix + owner + "/") == None
  {
    MatchHttps(owner + "/");
    assert HttpsPrefix + owner + "/" == HttpsPrefix + (owner + "/");
    SegmentOf(owner, "/");
    assert (owner + "/")[|owner| + 1..] == [];
  }

  /** What the written parser really returns for `https://github.com/<owner>/<repo>`:
      the repository name loses all its trailing `.`, `g`, `i` and `t`, and
      the address is rejected when nothing is left. */
  lemma AsWrittenStripsCharacters(owner: string, repo: string)
    requires IsSegment(owner) && IsSegment(repo)
    ensures var kept := TrimEnd(repo, IsRstripChar);
      ParseGithubUrlAsWritten(RepositoryUrl(owner, repo))
      == if kept == [] then Err(InvalidAddress) else Ok((owner, kept))
  {
    var url := RepositoryUrl(owner, repo);
    var head := HttpsPrefix + owner + "/";
    assert url == head + repo;
    assert LstripAt(url) == url by { assert url[0] == 'h'; }
    TrimEndConcat(head, repo, IsRstripChar);
    var kept := TrimEnd(repo, IsRstripChar);
    assert head + kept == RepositoryUrl(owner, kept) + [];
    if kept == [] {
      MatchRepositoryEmpty(owner);
    } else {
      MatchRepositoryUrl(owner, kept, []);
    }
  }

  /** The counterexample: a repository named `digit` is read as `d`. */
  lemma AsWrittenDigit()
    ensures ParseGithubUrlAsWritten("https://github.com/user/digit") == Ok(("user", "d"))
  {
    assert "https://github.com/user/digit" == RepositoryUrl("user", "digit");
    AsWrittenStripsCharacters("user", "digit");
    DigitKeepsD();
  }

  lemma DigitKeepsD()
    ensures TrimEnd("digit", IsRstripChar) == "d"
  {
    var kept := TrimEnd("digit", IsRstripChar);
    assert forall i :: 1 <= i < 5 ==> IsRstripChar("digit"[i]);
    assert !IsRstripChar("digit"[0]);
    assert kept == "digit"[..|kept|];
    assert |kept| <= 1;
    assert |kept| >= 1;
  }

  /** ... and a repository named `tig` makes a valid address invalid. */
  lemma AsWrittenTig()
    ensures ParseGithubUrlAsWritten("https://github.com/u/tig") == Err(InvalidAddress)
  {
    assert "https://github.com/u/tig" == RepositoryUrl("u", "tig");
    AsWrittenStripsCharacters("u", "tig");
    var kept := TrimEnd("tig", IsRstripChar);
    assert forall i :: 0 <= i < 3 ==> IsRstripChar("tig"[i]);
    assert kept == "tig"[..|kept|];
  }

  /** Leading `@`s are ignored by both parsers. */
  lemma ParseIgnoresLeadingAt(u: string)
    ensures ParseGithubUrl("@" + u) == ParseGithubUrl(u)
    ensures ParseGithubUrlAsWritten("@" + u) == ParseGithubUrlAsWritten(u)
  {
    assert ("@" + u)[1..] == u;
  }

  /** The corrected parser returns every repository name as written, and
      removes one `.git` suffix when present. */
  lemma ParseRepositoryUrl(owner: string, repo: string)
    requires IsSegment(owner) && IsSegment(repo)
    ensures !EndsWith(repo, ".git") ==> ParseGithubUrl(RepositoryUrl(owner, repo)) == Ok((owner, repo))
    ensures ParseGithubUrl(RepositoryUrl(owner, repo) + ".git") == Ok((owner, repo))
  {
    if !EndsWith(repo, ".git") {
      ParsePlainUrl(owner, repo);
    }
    ParseDottedUrl(owner, repo);
  }

  lemma ParsePlainUrl(owner: string, repo: string)
    requires IsSegment(owner) && IsSegment(repo) && !EndsWith(repo, ".git")
    ensures ParseGithubUrl(RepositoryUrl(owner, repo)) == Ok((owner, repo))
  {
    var url := RepositoryUrl(owner, repo);
    assert LstripAt(url) == url by { assert url[0] == 'h'; }
    assert !EndsWith(url, ".git") by {
      if |repo| >= 4 { assert url[|url| - 4..] == repo[|repo| - 4..]; }
      else { assert url[|url| - 4..][3 - |repo|] == '/'; }
    }
    assert url == RepositoryUrl(owner, repo) + [];
    MatchRepositoryUrl(owner, repo, []);
  }

  lemma ParseDottedUrl(owner: string, repo: string)
    requires IsSegment(owner) && IsSegment(repo)
    ensures ParseGithubUrl(RepositoryUrl(owner, repo) + ".git") == Ok((owner, repo))
  {
    var url := RepositoryUrl(owner, repo);
    var dotted := url + ".git";
    assert LstripAt(dotted) == dotted by { assert dotted[0] == 'h'; }
    assert EndsWith(dotted, ".git");
    assert RemoveGitSuffix(dotted) == url;
    assert url == RepositoryUrl(owner, repo) + [];
    MatchRepositoryUrl(owner, repo, []);
  }

  /** `http://` addresses are read the same way. */
  lemma ParseHttpUrl(owner: string, repo: string)
    requires IsSegment(owner) && IsSegment(repo) && !EndsWith(repo, ".git")
    ensures ParseGithubUrl(HttpPrefix + owner + "/" + repo) == Ok((owner, repo))
  {
    var url := HttpPrefix + owner + "/" + repo;
    assert LstripAt(url) == url by { assert url[0] == 'h'; }
    assert !EndsWith(url, ".git") by {
      if |repo| >= 4 { assert url[|url| - 4..] == repo[|repo| - 4..]; }
      else { assert url[|url| - 4..][3 - |repo|] == '/'; }
    }
    assert url == HttpPrefix + (owner + "/" + repo + []);
    MatchHttp(owner + "/" + repo + []);
    MatchPathSegments(owner, repo, []);
  }

  /** The corrected parser accepts `https://github.com/user/digit` in full. */
  lemma ParseDigit()
    ensures ParseGithubUrl("https://github.com/user/digit") == Ok(("user", "digit"))
  {
    assert "https://github.com/user/digit" == RepositoryUrl("user", "digit");
    ParseRepositoryUrl("user", "digit");
  }

  /** `f"https://github.com/{username}/{repo}/archive/refs/heads/main.zip"`. */
  function DownloadUrl(owner: string, repo: string): string
  {
    RepositoryUrl(owner, repo) + "/archive/refs/heads/main.zip"
  }

  /** `f"{repo}-main.zip"`. */
  function ZipName(repo: string): string
  {
    repo + "-main.zip"
  }

  /** The archive address names the same repository. */
  lemma ParseDownloadUrl(owner: string, repo: string)
    requires IsSegment(owner) && IsSegment(repo)
    ensures ParseGithubUrl(DownloadUrl(owner, repo)) == Ok((owner, repo))
  {
    var url := DownloadUrl(owner, repo);
    assert LstripAt(url) == url by { assert url[0] == 'h'; }
    assert !EndsWith(url, ".git") by { assert url[|url| - 1] == 'p'; }
    MatchRepositoryUrl(owner, repo, "/archive/refs/heads/main.zip");
  }

  /** What `download_file` fetches and where it writes it. */
  datatype Plan = Plan(downloadUrl: string, zipPath: string, status: string)

  /** `download_file` up to the download itself: the address is parsed first,
      then the save directory is checked. */
  function PlanDownload(url: string, saveEntry: string): Result<Plan>
  {
    PlanFrom(ParseGithubUrl(url), saveEntry)
  }

  /** `download_file` as written, on top of the `rstrip('.git')` parser. */
  function PlanDownloadAsWritten(url: string, saveEntry: string): Result<Plan>
  {
    PlanFrom(ParseGithubUrlAsWritten(url), saveEntry)
  }

  /** The steps of `download_file` after the address is parsed. */
  function PlanFrom(parsed: Result<(string, string)>, saveEntry: string): Result<Plan>
  {
    match parsed
    case Err(e) => Err(e)
    case Ok((owner, repo)) =>
      var saveDir := PyStrip(saveEntry);
      if saveDir == "" then Err(MissingSaveDir)
      else Ok(Plan(DownloadUrl(owner, repo), Join(saveDir, ZipName(repo)), "正在下载: " + owner + "/" + repo))
  }

  /** The program as written fetches the archive of `user/d` when asked for
      `user/digit`. */
  lemma AsWrittenPlanDigit(saveEntry: string)
    ensures PlanDownloadAsWritten("https://github.com/user/digit", saveEntry) == PlanFrom(Ok(("user", "d")), saveEntry)
    ensures PlanDownload("https://github.com/user/digit", saveEntry) == PlanFrom(Ok(("user", "digit")), saveEntry)
  {
    AsWrittenDigit();
    ParseDigit();
  }

  const FailurePrefix := "克隆失败: "

  /** The status line after a failure: `f"克隆失败: {str(e)}"`. */
  function FailureStatus(message: string): (status: string)
    ensures StartsWith(status, FailurePrefix) && status[|FailurePrefix|..] == message
  {
    FailurePrefix + message
  }

  /** The status line once `download_file` has planned, or failed to plan,
      the download from a parsed address. */
  function StatusFrom(parsed: Result<(string, string)>, saveEntry: string): string
  {
    match PlanFrom(parsed, saveEntry)
    case Err(e) => FailureStatus(e)
    case Ok(plan) => plan.status
  }

  /** The status line with the corrected parser. */
  function StatusAfterPlan(url: string, saveEntry: string): string
  {
    StatusFrom(ParseGithubUrl(url), saveEntry)
  }

  /** The status line of the program as written. */
  function StatusAfterPlanAsWritten(url: string, saveEntry: string): string
  {
    StatusFrom(ParseGithubUrlAsWritten(url), saveEntry)
  }

  /** For the program as written and for the corrected parser alike: a failed
      plan is reported with its message after the failure prefix, a rejected
      address with the invalid-address message; a planned download names
      `owner/repo` after the progress prefix. */
  lemma StatusAfterPlanReports(url: string, saveEntry: string)
    ensures PlanDownload(url, saveEntry).Err? ==>
      StatusAfterPlan(url, saveEntry)[|FailurePrefix|..] == PlanDownload(url, saveEntry).message
      && StartsWith(StatusAfterPlan(url, saveEntry), FailurePrefix)
    ensures PlanDownload(url, saveEntry).Ok? ==>
      var (owner, repo) := ParseGithubUrl(url).value;
      StatusAfterPlan(url, saveEntry) == "正在下载: " + owner + "/" + repo
    ensures ParseGithubUrl(url).Err? ==> StatusAfterPlan(url, saveEntry) == FailurePrefix + InvalidAddress
    ensures PlanDownloadAsWritten(url, saveEntry).Err? ==>
      StatusAfterPlanAsWritten(url, saveEntry)[|FailurePrefix|..] == PlanDownloadAsWritten(url, saveEntry).message
      && StartsWith(StatusAfterPlanAsWritten(url, saveEntry), FailurePrefix)
    ensures PlanDownloadAsWritten(url, saveEntry).Ok? ==>
      var (owner, repo) := ParseGithubUrlAsWritten(url).value;
      StatusAfterPlanAsWritten(url, saveEntry) == "正在下载: " + owner + "/" + repo
    ensures ParseGithubUrlAsWritten(url).Err? ==>
      StatusAfterPlanAsWritten(url, saveEntry) == FailurePrefix + InvalidAddress
  {
    StatusFromReports(ParseGithubUrl(url), saveEntry);
    StatusFromReports(ParseGithubUrlAsWritten(url), saveEntry);
  }

  lemma StatusFromReports(parsed: Result<(string, string)>, saveEntry: string)
    ensures PlanFrom(parsed, saveEntry).Err? ==>
      StatusFrom(parsed, saveEntry)[|FailurePrefix|..] == PlanFrom(parsed, saveEntry).message
      && StartsWith(StatusFrom(parsed, saveEntry), FailurePrefix)
    ensures PlanFrom(parsed, saveEntry).Ok? ==>
      StatusFrom(parsed, saveEntry) == "正在下载: " + parsed.value.0 + "/" + parsed.value.1
    ensures parsed.Err? ==> StatusFrom(parsed, saveEntry) == FailurePrefix + parsed.message
  {
  }

  /** As written, the valid address `https://github.com/u/tig` ends in the
      invalid-address failure; the corrected parser starts its download. */
  lemma AsWrittenStatusTig(saveEntry: string)
    ensures StatusAfterPlanAsWritten("https://github.com/u/tig", saveEntry) == FailurePrefix + InvalidAddress
    ensures PyStrip(saveEntry) != "" ==>
      StatusAfterPlan("https://github.com/u/tig", saveEntry) == "正在下载: " + "u" + "/" + "tig"
  {
    AsWrittenTig();
    ParseTig();
  }

  lemma ParseTig()
    ensures ParseGithubUrl("https://github.com/u/tig") == Ok(("u", "tig"))
  {
    assert "https://github.com/u/tig" == RepositoryUrl("u", "tig");
    ParseRepositoryUrl("u", "tig");
  }

  /** An invalid address is reported whatever the save directory; a valid
      one with a blank save directory is reported as such; otherwise the
      archive of the parsed repository is saved as `<repo>-main.zip` inside the
      stripped save directory. */
  lemma PlanDownloadOutcome(url: string, saveEntry: string)
    ensures ParseGithubUrl(url).Err? ==> PlanDownload(url, saveEntry) == Err(InvalidAddress)
    ensures ParseGithubUrl(url).Ok? && (forall i :: 0 <= i < |saveEntry| ==> IsPySpace(saveEntry[i]))
      ==> PlanDownload(url, saveEntry) == Err(MissingSaveDir)
    ensures ParseGithubUrl(url).Ok? && PyStrip(saveEntry) != "" && !EndsWith(PyStrip(saveEntry), "/") ==>
      var (owner, repo) := ParseGithubUrl(url).value;
      && PlanDownload(url, saveEntry).Ok?
      && PlanDownload(url, saveEntry).value.downloadUrl == DownloadUrl(owner, repo)
      && Basename(PlanDownload(url, saveEntry).value.zipPath) == ZipName(repo)
      && Dirname(PlanDownload(url, saveEntry).value.zipPath) == PyStrip(saveEntry)
  {
    PyStripEmpty(saveEntry);
    var saveDir := PyStrip(saveEntry);
    if ParseGithubUrl(url).Ok? && saveDir != "" && !EndsWith(saveDir, "/") {
      ZipPathParts(saveDir, ParseGithubUrl(url).value.1);
    }
  }

  lemma ZipPathParts(saveDir: string, repo: string)
    requires IsSegment(repo)
    requires saveDir != "" && !EndsWith(saveDir, "/")
    ensures Basename(Join(saveDir, ZipName(repo))) == ZipName(repo)
    ensures Dirname(Join(saveDir, ZipName(repo))) == saveDir
  {
    var z := ZipName(repo);
    forall i | 0 <= i < |z| ensures z[i] != '/' {
      if i >= |repo| { assert z[i] == "-main.zip"[i - |repo|]; }
    }
    BasenameJoin(saveDir, z);
    DirnameJoin(saveDir, z);
  }

  /** `start_download`. */
  lemma StartGuard(entry: string)
    ensures StartDownload(entry, EmptyAddressWarning) == Warn(EmptyAddressWarning)
        <==> forall i :: 0 <= i < |entry| ==> IsPySpace(entry[i])
  {
    StartDownloadGuard(entry, EmptyAddressWarning);
  }

  /** `get_software_dir` when the script sits in `<parent>/github_downloader`. */
  lemma DevelopmentDir(parent: string, resolve: string -> string, isDir: string -> bool, canCreate: bool)
    requires parent != "" && !EndsWith(parent, "/")
    ensures SoftwareDir(ToolDir, Join(parent, ToolDir), resolve, isDir, canCreate) == parent
  {
    DevelopmentLayout(parent, ToolDir, resolve, isDir, canCreate);
  }
}
