/** The object-storage download window (cos_downloader.py): the local file
    name is the last `/`-separated piece of the address, percent-decoded as
    `urllib.parse.unquote` does; the file goes into the software directory
    and is extracted when its name ends in `.zip`. The UTF-8 decoding inside
    `unquote` (with replacement of malformed input) is the parameter
    `decode`. */
module CosDownloader {
  import opened Results
  import opened Text
  import opened PosixPath
  import opened DownloadCommon

  const MissingFileName := "无法从URL中获取文件名"
  const EmptyAddressWarning := "请输入下载地址"
  const ToolDir := "cos_downloader"

  predicate IsAscii(c: char)
  {
    c as int < 128
  }

  predicate AllAscii(s: string)
  {
    forall i :: 0 <= i < |s| ==> IsAscii(s[i])
  }

  /** `unquote_to_bytes` on a run of ASCII characters: `%` and two hex digits
      give one byte, anything else (a lone `%` included) stands for itself. */
  function PercentBytes(run: string): seq<byte>
    requires AllAscii(run)
    decreases |run|
  {
    if |run| == 0 then []
    else if run[0] == '%' && |run| >= 3 && IsHexChar(run[1]) && IsHexChar(run[2]) then
      [(HexValue(run[1]) * 16 + HexValue(run[2])) as byte] + PercentBytes(run[3..])
    else [run[0] as int as byte] + PercentBytes(run[1..])
  }

  /** The longest prefix of ASCII characters. */
  function AsciiRun(s: string): (r: string)
    ensures |r| <= |s| && r == s[..|r|] && AllAscii(r)
    ensures |r| < |s| ==> !IsAscii(s[|r|])
    decreases |s|
  {
    if |s| == 0 || !IsAscii(s[0]) then [] else [s[0]] + AsciiRun(s[1..])
  }

  /** The body of `unquote` past its fast path: each maximal ASCII run is
      turned into bytes and decoded; other characters are kept. */
  function DecodeRuns(s: string, decode: seq<byte> -> string): string
    decreases |s|
  {
    if |s| == 0 then []
    else if IsAscii(s[0]) then
      var run := AsciiRun(s);
      decode(PercentBytes(run)) + DecodeRuns(s[|run|..], decode)
    else [s[0]] + DecodeRuns(s[1..], decode)
  }

  /** `urllib.parse.unquote`. */
  function Unquote(s: string, decode: seq<byte> -> string): string
  {
    if forall i :: 0 <= i < |s| ==> s[i] != '%' then s else DecodeRuns(s, decode)
  }

  /** A name with no `%` is returned unchanged, whatever the decoder does. */
  lemma UnquoteWithoutPercent(s: string, decode: seq<byte> -> string)
    requires forall i :: 0 <= i < |s| ==> s[i] != '%'
    ensures Unquote(s, decode) == s
  {
  }

  /** `%XX` for every byte: the encoding `unquote` undoes. */
  function PercentEncode(bs: seq<byte>): (r: string)
    ensures |r| == 3 * |bs| && AllAscii(r)
    decreases |bs|
  {
    if |bs| == 0 then []
    else ['%', HexDigit(bs[0] as int / 16), HexDigit(bs[0] as int % 16)] + PercentEncode(bs[1..])
  }

  lemma {:induction false} PercentBytesEncode(bs: seq<byte>)
    ensures PercentBytes(PercentEncode(bs)) == bs
    decreases |bs|
  {
    if |bs| > 0 {
      var e := PercentEncode(bs);
      var hi, lo := bs[0] as int / 16, bs[0] as int % 16;
      HexDigitRoundTrip(hi);
      HexDigitRoundTrip(lo);
      assert e[1] == HexDigit(hi) && e[2] == HexDigit(lo);
      assert hi * 16 + lo == bs[0] as int;
      assert e[3..] == PercentEncode(bs[1..]);
      PercentBytesEncode(bs[1..]);
    }
  }

  /** Percent-decoding undoes percent-encoding: a fully encoded name decodes
      to the decoder's reading of the original bytes. */
  lemma UnquoteEncoded(bs: seq<byte>, decode: seq<byte> -> string)
    requires bs != []
    ensures Unquote(PercentEncode(bs), decode) == decode(PercentBytes(PercentEncode(bs)))
    ensures Unquote(PercentEncode(bs), decode) == decode(bs)
  {
    var e := PercentEncode(bs);
    assert e[0] == '%';
    assert Unquote(e, decode) == DecodeRuns(e, decode);
    AsciiRunAll(e);
    assert e[|e|..] == [];
    assert DecodeRuns(e, decode) == decode(PercentBytes(e)) + DecodeRuns([], decode);
    PercentBytesEncode(bs);
  }

  lemma {:induction false} AsciiRunAll(s: string)
    requires AllAscii(s)
    ensures AsciiRun(s) == s
    decreases |s|
  {
    if |s| > 0 {
      AsciiRunAll(s[1..]);
    }
  }

  /** `url.split('/')[-1]`: the text after the last `/`, which is what
      `basename` computes. */
  function LastSegment(url: string): (r: string)
    ensures EndsWith(url, r)
    ensures forall i :: 0 <= i < |r| ==> r[i] != '/'
    ensures |r| < |url| ==> url[|url| - |r| - 1] == '/'
  {
    Basename(url)
  }

  function FileName(url: string, decode: seq<byte> -> string): string
  {
    Unquote(LastSegment(url), decode)
  }

  /** `file_name.lower().endswith('.zip')`. */
  predicate IsZipName(name: string)
  {
    EndsWith(Lower(name), ".zip")
  }

  /** What `download_file` does before and after the transfer. */
  datatype Plan = Plan(downloadPath: string, extract: bool, status: string)

  /** `download_file`, with the transfer and the extraction left out. */
  function PlanDownload(url: string, softwareDir: string, decode: seq<byte> -> string): Result<Plan>
  {
    var name := FileName(url, decode);
    if name == "" then Err(MissingFileName)
    else Ok(Plan(Join(softwareDir, name), IsZipName(name), DownloadingPrefix + name))
  }

  const FailurePrefix := "下载失败: "
  const DownloadingPrefix := "正在下载: "
  const ExtractedStatus := "文件解压完成！"
  const DoneStatus := "下载完成！"
  const UnsafeFileName := "文件名不能包含路径"

  /** The status line after a failure: `f"下载失败: {str(e)}"`. */
  function FailureStatus(message: string): (status: string)
    ensures StartsWith(status, FailurePrefix) && status[|FailurePrefix|..] == message
  {
    FailurePrefix + message
  }

  /** A name that `join` places directly inside the directory: not empty,
      not `.` or `..`, and free of either separator. */
  predicate IsPlainName(name: string)
  {
    && name != "" && name != "." && name != ".."
    && forall i :: 0 <= i < |name| ==> name[i] != '/' && name[i] != '\\'
  }

  /** Where `download_file` as written puts the file. No name means no
      download; a decoded name without a separator lands in the software
      directory under that name; a decoded name starting with `/` replaces
      the software directory altogether. */
  lemma PlanDownloadPlacement(url: string, softwareDir: string, decode: seq<byte> -> string)
    requires softwareDir != "" && !EndsWith(softwareDir, "/")
    ensures PlanDownload(url, softwareDir, decode).Err? <==> FileName(url, decode) == ""
    ensures PlanDownload(url, softwareDir, decode).Err? ==>
      PlanDownload(url, softwareDir, decode).message == MissingFileName
    ensures PlanDownload(url, softwareDir, decode).Ok? &&
            (forall i :: 0 <= i < |FileName(url, decode)| ==> FileName(url, decode)[i] != '/') ==>
      && Dirname(PlanDownload(url, softwareDir, decode).value.downloadPath) == softwareDir
      && Basename(PlanDownload(url, softwareDir, decode).value.downloadPath) == FileName(url, decode)
    ensures PlanDownload(url, softwareDir, decode).Ok? && StartsWith(FileName(url, decode), "/") ==>
      PlanDownload(url, softwareDir, decode).value.downloadPath == FileName(url, decode)
  {
    var name := FileName(url, decode);
    if name != "" && forall i :: 0 <= i < |name| ==> name[i] != '/' {
      BasenameJoin(softwareDir, name);
      DirnameJoin(softwareDir, name);
    }
  }

  /** As written, an encoded separator in the last segment survives the
      split and is decoded afterwards: `h/%2Fx` (with a UTF-8 decoder, which
      reads the bytes 0x2F 0x78 as `/x`) is saved at `/x`, outside the
      software directory; the corrected plan refuses it. */
  lemma AsWrittenEscapes(decode: seq<byte> -> string)
    requires decode([0x2F, 0x78]) == "/x"
    ensures PlanDownload("h/%2Fx", "sw", decode) == Ok(Plan("/x", IsZipName("/x"), DownloadingPrefix + "/x"))
    ensures Dirname("/x") != "sw"
    ensures PlanDownloadContained("h/%2Fx", "sw", decode) == Err(UnsafeFileName)
  {
    EscapedName(decode);
    assert Join("sw", "/x") == "/x" by { assert StartsWith("/x", "/"); }
    RootDirname();
    assert !IsPlainName("/x") by { assert "/x"[0] == '/'; }
  }

  lemma EscapedName(decode: seq<byte> -> string)
    requires decode([0x2F, 0x78]) == "/x"
    ensures FileName("h/%2Fx", decode) == "/x"
  {
    var seg := "%2Fx";
    assert "h/%2Fx" == "h" + "/" + seg;
    BasenameAfterSlash("h", seg);
    EscapedBytes();
    assert seg[0] == '%';
    AsciiRunAll(seg);
    assert seg[|seg|..] == [];
    assert Unquote(seg, decode) == decode([0x2F, 0x78]) + DecodeRuns([], decode);
  }

  lemma EscapedBytes()
    ensures AllAscii("%2Fx") && PercentBytes("%2Fx") == [0x2F, 0x78]
  {
    var seg := "%2Fx";
    assert seg[3..] == "x";
    assert PercentBytes("x") == [0x78];
    assert HexValue('2') == 2 && HexValue('F') == 15;
  }

  lemma RootDirname()
    ensures Dirname("/x") == "/"
  {
    assert SplitIndex("/x") == 1;
    assert "/x"[..1] == "/";
    assert AllSlashes("/");
  }

  /** `download_file` with the file name checked before the join: a decoded
      name that is not a plain name is refused instead of being joined. */
  function PlanDownloadContained(url: string, softwareDir: string, decode: seq<byte> -> string): (r: Result<Plan>)
    ensures r.Ok? ==> r.value.status == DownloadingPrefix + FileName(url, decode)
    ensures r.Ok? <==> IsPlainName(FileName(url, decode))
  {
    var name := FileName(url, decode);
    if name == "" then Err(MissingFileName)
    else if !IsPlainName(name) then Err(UnsafeFileName)
    else Ok(Plan(Join(softwareDir, name), IsZipName(name), DownloadingPrefix + name))
  }

  /** Every planned download of the corrected plan lands directly inside the
      software directory, under the decoded name, and it agrees with the
      program wherever the name is plain. */
  lemma ContainedStaysInSoftwareDir(url: string, softwareDir: string, decode: seq<byte> -> string)
    requires softwareDir != "" && !EndsWith(softwareDir, "/")
    ensures PlanDownloadContained(url, softwareDir, decode).Ok? ==>
      && Dirname(PlanDownloadContained(url, softwareDir, decode).value.downloadPath) == softwareDir
      && Basename(PlanDownloadContained(url, softwareDir, decode).value.downloadPath) == FileName(url, decode)
    ensures IsPlainName(FileName(url, decode)) ==>
      PlanDownloadContained(url, softwareDir, decode) == PlanDownload(url, softwareDir, decode)
    ensures FileName(url, decode) == "" ==>
      PlanDownloadContained(url, softwareDir, decode) == Err(MissingFileName)
  {
    var name := FileName(url, decode);
    if IsPlainName(name) {
      BasenameJoin(softwareDir, name);
      DirnameJoin(softwareDir, name);
    }
  }

  /** The status line `download_file` leaves behind, with the transfer and
      the extraction reduced to the exception they raise, if any. */
  function FinalStatus(url: string, softwareDir: string, decode: seq<byte> -> string, failure: Option<string>): string
  {
    match PlanDownloadContained(url, softwareDir, decode)
    case Err(message) => FailureStatus(message)
    case Ok(plan) =>
      if failure.Some? then FailureStatus(failure.value)
      else if plan.extract then ExtractedStatus
      else DoneStatus
  }

  /** A missing name and a failed transfer are reported behind the failure
      prefix; a completed transfer reports extraction exactly for `.zip`
      names. */
  lemma FinalStatusReports(url: string, softwareDir: string, decode: seq<byte> -> string, failure: Option<string>)
    ensures FileName(url, decode) == "" ==>
      FinalStatus(url, softwareDir, decode, failure)[|FailurePrefix|..] == MissingFileName
    ensures IsPlainName(FileName(url, decode)) && failure.Some? ==>
      FinalStatus(url, softwareDir, decode, failure)[|FailurePrefix|..] == failure.value
    ensures !IsPlainName(FileName(url, decode)) || failure.Some? ==>
      StartsWith(FinalStatus(url, softwareDir, decode, failure), FailurePrefix)
    ensures IsPlainName(FileName(url, decode)) && failure.None? ==>
      (FinalStatus(url, softwareDir, decode, failure) == ExtractedStatus <==> IsZipName(FileName(url, decode)))
    ensures IsPlainName(FileName(url, decode)) && failure.None? ==>
      !StartsWith(FinalStatus(url, softwareDir, decode, failure), FailurePrefix)
  {
    var plan := PlanDownloadContained(url, softwareDir, decode);
    var s := FinalStatus(url, softwareDir, decode, failure);
    if plan.Err? {
      assert s == FailureStatus(plan.message);
    } else if failure.Some? {
      assert s == FailureStatus(failure.value);
    } else {
      assert plan.value.extract == IsZipName(FileName(url, decode));
      assert s == (if plan.value.extract then ExtractedStatus else DoneStatus);
      CompletionStatuses();
    }
  }

  /** Neither completion message looks like a failure, and they differ. */
  lemma CompletionStatuses()
    ensures ExtractedStatus != DoneStatus
    ensures !StartsWith(ExtractedStatus, FailurePrefix)
    ensures !StartsWith(DoneStatus, FailurePrefix)
  {
    assert ExtractedStatus[0] != DoneStatus[0];
    assert ExtractedStatus[0] != FailurePrefix[0];
    assert DoneStatus[2] != FailurePrefix[2];
  }


  /** An address ending in `/` names no file. */
  lemma TrailingSlashHasNoName(url: string, decode: seq<byte> -> string)
    requires url != [] && url[|url| - 1] == '/'
    ensures PlanDownload(url, "", decode) == Err(MissingFileName)
    ensures forall dir :: PlanDownload(url, dir, decode) == Err(MissingFileName)
    ensures forall dir :: PlanDownloadContained(url, dir, decode) == Err(MissingFileName)
  {
    assert LastSegment(url) == [];
  }

  /** A query string stays part of the name, so `a.zip?x=1` is saved under
      that name and not extracted. */
  lemma QueryStringIsKept(prefix: string, decode: seq<byte> -> string)
    ensures FileName(prefix + "/a.zip?x=1", decode) == "a.zip?x=1"
    ensures !IsZipName("a.zip?x=1")
  {
    var name := "a.zip?x=1";
    assert prefix + "/a.zip?x=1" == prefix + "/" + name;
    BasenameAfterSlash(prefix, name);
    UnquoteWithoutPercent(name, decode);
    QueryNameIsNotZip();
  }

  lemma QueryNameIsNotZip()
    ensures !IsZipName("a.zip?x=1")
  {
    var name := "a.zip?x=1";
    assert Lower(name)[|name| - 1] == LowerChar('1');
  }

  /** The `pwd` argument of `extractall`: both arms of its conditional are
      `None`, so the name test it performs (a foreign code-page round trip,
      the parameter `lossy`) has no effect. */
  function ExtractPassword(names: seq<string>, lossy: string -> bool): (pwd: Option<string>)
    ensures pwd == None
  {
    if exists i :: 0 <= i < |names| && lossy(names[i]) then None else None
  }

  /** `start_download`. */
  lemma StartGuard(entry: string)
    ensures StartDownload(entry, EmptyAddressWarning) == Warn(EmptyAddressWarning)
        <==> forall i :: 0 <= i < |entry| ==> IsPySpace(entry[i])
  {
    StartDownloadGuard(entry, EmptyAddressWarning);
  }

  /** `get_software_dir` when the script sits in `<parent>/cos_downloader`. */
  lemma DevelopmentDir(parent: string, resolve: string -> string, isDir: string -> bool, canCreate: bool)
    requires parent != "" && !EndsWith(parent, "/")
    ensures SoftwareDir(ToolDir, Join(parent, ToolDir), resolve, isDir, canCreate) == parent
  {
    DevelopmentLayout(parent, ToolDir, resolve, isDir, canCreate);
  }
}
