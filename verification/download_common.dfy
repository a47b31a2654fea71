/** What the two downloader windows share: the choice of the software
    directory (`get_software_dir`) and the guard in `start_download`.
    The file system is seen through two parameters: `resolve` stands for
    `os.path.abspath` and `isDir` for `os.path.exists(p) and os.path.isdir(p)`;
    whether `os.makedirs` of the default directory succeeds is a flag. */
module DownloadCommon {
  import opened Results
  import opened Text
  import opened PosixPath

  /** The packaged layouts tried in order, relative to the script's directory. */
  function Candidates(currentDir: string): seq<string>
  {
    [ JoinAll(currentDir, ["..", "software"]),
      JoinAll(currentDir, ["..", "..", "app", "software"]),
      JoinAll(currentDir, ["app", "software"]) ]
  }

  /** Index of the first path that resolves to an existing directory. */
  function FirstDirectory(paths: seq<string>, resolve: string -> string, isDir: string -> bool): (r: Option<nat>)
    ensures r.Some? ==> r.value < |paths| && isDir(resolve(paths[r.value]))
    ensures r.Some? ==> forall j :: 0 <= j < r.value ==> !isDir(resolve(paths[j]))
    ensures r.None? ==> forall j :: 0 <= j < |paths| ==> !isDir(resolve(paths[j]))
    decreases |paths|
  {
    if |paths| == 0 then None
    else if isDir(resolve(paths[0])) then Some(0)
    else match FirstDirectory(paths[1..], resolve, isDir)
      case Some(i) => Some(i + 1)
      case None => None
  }

  /** `get_software_dir` of the window whose script lives in a directory named
      `toolDir` (`github_downloader` or `cos_downloader`). */
  function SoftwareDir(toolDir: string, currentDir: string, resolve: string -> string,
                       isDir: string -> bool, canCreate: bool): string
  {
    if Basename(currentDir) == toolDir then Dirname(currentDir)
    else match FirstDirectory(Candidates(currentDir), resolve, isDir)
      case Some(i) => resolve(Candidates(currentDir)[i])
      case None => if canCreate then Join(currentDir, "software") else currentDir
  }

  /** The priority of `get_software_dir`: the development layout wins; then the
      first packaged layout that exists; then the default directory, or the
      script's own directory when it cannot be created. */
  lemma SoftwareDirPriority(toolDir: string, currentDir: string, resolve: string -> string,
                            isDir: string -> bool, canCreate: bool)
    ensures Basename(currentDir) == toolDir ==>
      SoftwareDir(toolDir, currentDir, resolve, isDir, canCreate) == Dirname(currentDir)
    ensures forall i ::
              (0 <= i < 3 && Basename(currentDir) != toolDir
               && isDir(resolve(Candidates(currentDir)[i]))
               && (forall j :: 0 <= j < i ==> !isDir(resolve(Candidates(currentDir)[j]))))
              ==> SoftwareDir(toolDir, currentDir, resolve, isDir, canCreate) == resolve(Candidates(currentDir)[i])
    ensures Basename(currentDir) != toolDir && (forall i :: 0 <= i < 3 ==> !isDir(resolve(Candidates(currentDir)[i])))
      ==> SoftwareDir(toolDir, currentDir, resolve, isDir, canCreate)
          == (if canCreate then Join(currentDir, "software") else currentDir)
  {
    var cs := Candidates(currentDir);
    match FirstDirectory(cs, resolve, isDir)
    case Some(k) =>
      forall i | 0 <= i < 3 && isDir(resolve(cs[i])) && (forall j :: 0 <= j < i ==> !isDir(resolve(cs[j])))
        ensures i == k
      {
      }
    case None =>
  }

  /** In the development layout the answer does not depend on the file system. */
  lemma DevelopmentLayout(parent: string, toolDir: string, resolve: string -> string,
                          isDir: string -> bool, canCreate: bool)
    requires parent != "" && !EndsWith(parent, "/")
    requires toolDir != "" && forall i :: 0 <= i < |toolDir| ==> toolDir[i] != '/'
    ensures SoftwareDir(toolDir, Join(parent, toolDir), resolve, isDir, canCreate) == parent
  {
    BasenameJoin(parent, toolDir);
    DirnameJoin(parent, toolDir);
  }

  /** What the download button does. */
  datatype StartAction =
    | Warn(warning: string)   // a message box; nothing is disabled, no thread
    | Launch(url: string)     // controls disabled, the download thread started

  /** `start_download`: a blank address only warns. */
  function StartDownload(entry: string, warning: string): StartAction
  {
    var url := PyStrip(entry);
    if url == "" then Warn(warning) else Launch(url)
  }

  /** A download starts exactly when the address holds a non-space character,
      and the thread receives the stripped address. */
  lemma StartDownloadGuard(entry: string, warning: string)
    ensures StartDownload(entry, warning).Warn? <==> forall i :: 0 <= i < |entry| ==> IsPySpace(entry[i])
    ensures StartDownload(entry, warning).Warn? ==> StartDownload(entry, warning).warning == warning
    ensures StartDownload(entry, warning).Launch? ==>
      var u := StartDownload(entry, warning).url;
      u != [] && !IsPySpace(u[0]) && !IsPySpace(u[|u| - 1]) && |u| <= |entry|
    ensures StartDownload(entry, warning).Launch? ==> StartDownload(entry, warning).url == PyStrip(entry)
  {
    PyStripEmpty(entry);
  }
}
