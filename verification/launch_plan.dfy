/** The encrypted branch of `runSoftware` (software_manager.js): `decryptCode`
    splits the package into an initialisation vector and the ciphertext,
    deciphers it (AES-256-CBC with a fixed key, the parameter `decipher`),
    decodes the plaintext as UTF-8 (the parameter `decode`), trims it,
    removes coding declarations with one global regular-expression replace,
    and puts a single UTF-8 declaration in front. Also the choice between the
    two branches. */
module LaunchPlan {
  import opened Results
  import opened Text
  import opened LaunchFiles

  /** The ASCII key `'12345678901234567890123456789012'` as bytes. */
  const Key: seq<byte> := [
    0x31, 0x32, 0x33, 0x34, 0x35, 0x36, 0x37, 0x38, 0x39, 0x30,
    0x31, 0x32, 0x33, 0x34, 0x35, 0x36, 0x37, 0x38, 0x39, 0x30,
    0x31, 0x32, 0x33, 0x34, 0x35, 0x36, 0x37, 0x38, 0x39, 0x30,
    0x31, 0x32 ]

  /** `iv = data.slice(0, 16)` and `content = data.slice(16)`. */
  function SplitIv(data: seq<byte>): (r: (seq<byte>, seq<byte>))
    ensures r.0 + r.1 == data
    ensures |r.0| == Min(16, |data|)
  {
    if |data| <= 16 then (data, []) else (data[..16], data[16..])
  }

  // ---------------------------------------------------------------------------
  // `content.replace(/# -\*- coding:.*?-\*-\n/g, '')`

  const CodingPrefix := "# -*- coding:"
  const CodingSuffix := "-*-\n"
  const Header := "# -*- coding: utf-8 -*-\n"

  /** The characters `.` does not match. */
  predicate IsLineTerminator(c: char)
  {
    c == '\n' || c == '\r' || c == '\U{2028}' || c == '\U{2029}'
  }

  /** The lazy `.*?-\*-\n` from index `k`: the first `-*-\n` reached without
      crossing a line terminator; the index just past it. */
  function LazyEnd(s: string, k: nat): (r: Option<nat>)
    ensures r.Some? ==> k + |CodingSuffix| <= r.value <= |s|
    decreases |s| - k
  {
    if OccursAt(s, CodingSuffix, k) then Some(k + |CodingSuffix|)
    else if k < |s| && !IsLineTerminator(s[k]) then LazyEnd(s, k + 1)
    else None
  }

  /** The length of the match at the start of `s`, if the pattern matches there. */
  function MatchAt(s: string): (r: Option<nat>)
    ensures r.Some? ==> 0 < r.value <= |s|
    ensures r.Some? ==> StartsWith(s, CodingPrefix) && |CodingPrefix| + |CodingSuffix| <= r.value
    ensures !StartsWith(s, CodingPrefix) ==> r == None
  {
    if StartsWith(s, CodingPrefix) then LazyEnd(s, |CodingPrefix|) else None
  }

  /** The lazy match ends just past the first `-*-\n` from `k`, and crosses no
      line terminator on the way; when there is none, every later `-*-\n` is
      cut off from `k` by a line terminator. */
  lemma LazyEndIsLazyMatch(s: string, k: nat)
    ensures LazyEnd(s, k).Some? ==> OccursAt(s, CodingSuffix, LazyEnd(s, k).value - |CodingSuffix|)
    ensures LazyEnd(s, k).Some? ==> forall j :: k <= j < LazyEnd(s, k).value - |CodingSuffix| ==>
      !OccursAt(s, CodingSuffix, j) && !IsLineTerminator(s[j])
    ensures LazyEnd(s, k).None? ==> forall e :: k <= e && OccursAt(s, CodingSuffix, e) ==>
      exists j :: k <= j < e && IsLineTerminator(s[j])
  {
    LazyEndFound(s, k);
    LazyEndSkipped(s, k);
    LazyEndMissing(s, k);
  }

  lemma {:induction false} LazyEndFound(s: string, k: nat)
    ensures LazyEnd(s, k).Some? ==> OccursAt(s, CodingSuffix, LazyEnd(s, k).value - |CodingSuffix|)
    decreases |s| - k
  {
    if !OccursAt(s, CodingSuffix, k) && k < |s| && !IsLineTerminator(s[k]) {
      LazyEndFound(s, k + 1);
    }
  }

  lemma {:induction false} LazyEndSkipped(s: string, k: nat)
    ensures LazyEnd(s, k).Some? ==> forall j :: k <= j < LazyEnd(s, k).value - |CodingSuffix| ==>
      !OccursAt(s, CodingSuffix, j) && !IsLineTerminator(s[j])
    decreases |s| - k
  {
    if !OccursAt(s, CodingSuffix, k) && k < |s| && !IsLineTerminator(s[k]) {
      LazyEndSkipped(s, k + 1);
    }
  }

  lemma {:induction false} LazyEndMissing(s: string, k: nat)
    ensures LazyEnd(s, k).None? ==> forall e :: k <= e && OccursAt(s, CodingSuffix, e) ==>
      exists j :: k <= j < e && IsLineTerminator(s[j])
    decreases |s| - k
  {
    if !OccursAt(s, CodingSuffix, k) && k < |s| && !IsLineTerminator(s[k]) {
      LazyEndMissing(s, k + 1);
    }
  }

  /** A match is a whole declaration: the prefix, text without a line
      terminator, and the first `-*-\n` after the prefix. */
  lemma MatchAtIsDeclaration(s: string)
    ensures MatchAt(s).Some? ==> OccursAt(s, CodingSuffix, MatchAt(s).value - |CodingSuffix|)
    ensures MatchAt(s).Some? ==> forall j :: |CodingPrefix| <= j < MatchAt(s).value - |CodingSuffix| ==>
      !OccursAt(s, CodingSuffix, j) && !IsLineTerminator(s[j])
  {
    LazyEndIsLazyMatch(s, |CodingPrefix|);
  }

  /** The global replace: scanning left to right, a match is removed and the
      scan resumes after it; otherwise one character is kept. */
  function Scrub(s: string): string
    decreases |s|
  {
    if s == [] then []
    else match MatchAt(s)
      case Some(e) => Scrub(s[e..])
      case None => [s[0]] + Scrub(s[1..])
  }

  function NormalizeHeader(text: string): string
  {
    Header + Scrub(JsTrim(text))
  }

  /** A declaration line as it appears in a source file. */
  function CodingLine(x: string): string
  {
    CodingPrefix + x + CodingSuffix
  }

  predicate NoHash(s: string)
  {
    forall i :: 0 <= i < |s| ==> s[i] != '#'
  }

  /** No declaration prefix starts before index `n`. */
  predicate NoDeclarationBefore(s: string, n: nat)
  {
    forall i :: 0 <= i < n ==> !OccursAt(s, CodingPrefix, i)
  }

  /** Text in which no `# -*- coding:` starts passes through the replace
      untouched: ordinary comments and a shebang line are kept. */
  lemma {:induction false} ScrubKeepsUndeclared(a: string, b: string)
    requires NoDeclarationBefore(a + b, |a|)
    ensures Scrub(a + b) == a + Scrub(b)
    decreases |a|
  {
    if a != [] {
      var s := a + b;
      OccursAtStart(s, CodingPrefix);
      assert s[1..] == a[1..] + b;
      KeptFirst(s, a[1..] + b);
      forall i | 0 <= i < |a| - 1
        ensures !OccursAt(a[1..] + b, CodingPrefix, i)
      {
        OccursAfterFirst(s, CodingPrefix, i);
      }
      ScrubKeepsUndeclared(a[1..], b);
      assert [a[0]] + a[1..] == a;
    } else {
      assert a + b == b;
    }
  }

  lemma OccursAtStart(s: string, p: string)
    ensures StartsWith(s, p) == OccursAt(s, p, 0)
  {
    if |p| <= |s| {
      assert s[0..|p|] == s[..|p|];
    }
  }

  lemma OccursAfterFirst(s: string, p: string, i: nat)
    requires s != []
    ensures OccursAt(s[1..], p, i) == OccursAt(s, p, i + 1)
  {
    if i + |p| <= |s| - 1 {
      assert s[1..][i..i + |p|] == s[i + 1..i + 1 + |p|];
    }
  }

  lemma OccursFirst(s: string, p: string, i: nat)
    requires p != []
    ensures OccursAt(s, p, i) ==> s[i] == p[0]
  {
    if OccursAt(s, p, i) {
      assert s[i..i + |p|][0] == s[i];
    }
  }

  /** Text without `#` passes through the replace untouched. */
  lemma ScrubKeepsPlainText(a: string, b: string)
    requires NoHash(a)
    ensures Scrub(a + b) == a + Scrub(b)
  {
    forall i | 0 <= i < |a|
      ensures !OccursAt(a + b, CodingPrefix, i)
    {
      assert (a + b)[i] == a[i];
      OccursFirst(a + b, CodingPrefix, i);
    }
    ScrubKeepsUndeclared(a, b);
  }

  lemma {:induction false} LazyEndSkips(s: string, k: nat, e: nat)
    requires k <= e && OccursAt(s, CodingSuffix, e)
    requires forall j :: k <= j < e ==> !OccursAt(s, CodingSuffix, j) && !IsLineTerminator(s[j])
    ensures LazyEnd(s, k) == Some(e + |CodingSuffix|)
    decreases e - k
  {
    if k < e {
      LazyEndSkips(s, k + 1, e);
    }
  }

  /** Every declaration line whose text has no line terminator is removed,
      wherever the declaration text happens to contain `-*-`. */
  lemma ScrubRemovesDeclaration(x: string, rest: string)
    requires forall i :: 0 <= i < |x| ==> !IsLineTerminator(x[i])
    ensures Scrub(CodingLine(x) + rest) == Scrub(rest)
  {
    var s := CodingLine(x) + rest;
    var p := |CodingPrefix|;
    var e := p + |x|;
    assert s[..p] == CodingPrefix;
    assert s[e..e + 4] == CodingSuffix;
    forall j | p <= j < e
      ensures !OccursAt(s, CodingSuffix, j) && !IsLineTerminator(s[j])
    {
      assert s[j] == x[j - p];
      if j + 3 < e {
        assert s[j + 3] == x[j + 3 - p];
      } else {
        assert s[j + 3] == CodingSuffix[j + 3 - e];
      }
    }
    LazyEndSkips(s, p, e);
    assert s[e + 4..] == rest;
  }

  /** A declaration ended by `\r\n` is not removed: `.` stops at `\r`. */
  lemma ScrubKeepsCrlfDeclaration(x: string, rest: string)
    requires forall i :: 0 <= i < |x| ==> !IsLineTerminator(x[i]) && x[i] != '#'
    ensures Scrub(CodingPrefix + x + "-*-\r\n" + rest) == CodingPrefix + x + "-*-\r\n" + Scrub(rest)
  {
    var s := CodingPrefix + x + "-*-\r\n" + rest;
    var t := CodingPrefix[1..] + x + "-*-\r\n";
    CrlfDeclarationNotMatched(x, rest);
    DeclarationTailPlain(x, "-*-\r\n");
    CrlfShape(CodingPrefix, x, "-*-\r\n", rest);
    KeptFirst(s, t + rest);
    ScrubKeepsPlainText(t, rest);
    calc {
      Scrub(s);
      [s[0]] + Scrub(t + rest);
      [s[0]] + (t + Scrub(rest));
      ([s[0]] + t) + Scrub(rest);
    }
  }

  lemma CrlfShape(a: string, x: string, c: string, rest: string)
    requires a != []
    ensures (a + x + c + rest)[0] == a[0]
    ensures (a + x + c + rest)[1..] == (a[1..] + x + c) + rest
    ensures [a[0]] + (a[1..] + x + c) == a + x + c
  {
  }

  lemma KeptFirst(s: string, r: string)
    requires s != [] && MatchAt(s) == None && s[1..] == r
    ensures Scrub(s) == [s[0]] + Scrub(r)
  {
  }

  lemma CrlfDeclarationNotMatched(x: string, rest: string)
    requires forall i :: 0 <= i < |x| ==> !IsLineTerminator(x[i])
    ensures MatchAt(CodingPrefix + x + "-*-\r\n" + rest) == None
  {
    var s := CodingPrefix + x + "-*-\r\n" + rest;
    var p := |CodingPrefix|;
    var e := p + |x|;
    assert s[..p] == CodingPrefix;
    assert s[e] == '-' && s[e + 1] == '*' && s[e + 2] == '-' && s[e + 3] == '\r';
    forall j | p <= j < e
      ensures !IsLineTerminator(s[j]) && s[j] == x[j - p]
    {
    }
    forall j | p <= j <= e + 3
      ensures !OccursAt(s, CodingSuffix, j)
    {
      if j + 3 < e {
        assert s[j + 3] == x[j + 3 - p];
        MismatchAt(s, CodingSuffix, j, 3);
      } else if j + 3 <= e + 3 {
        MismatchAt(s, CodingSuffix, j, 3);
      } else if j == e + 1 {
        MismatchAt(s, CodingSuffix, j, 0);
      } else if j == e + 2 {
        MismatchAt(s, CodingSuffix, j, 1);
      } else {
        MismatchAt(s, CodingSuffix, j, 0);
      }
    }
    CrlfNoMatch(s, p, e + 3);
  }

  /** What follows the `#` of a declaration has no `#` when its text has none. */
  lemma DeclarationTailPlain(x: string, ending: string)
    requires NoHash(x) && NoHash(ending)
    ensures NoHash(CodingPrefix[1..] + x + ending)
  {
    var p := |CodingPrefix|;
    var t := CodingPrefix[1..] + x + ending;
    forall i | 0 <= i < |t| ensures t[i] != '#' {
      if i < p - 1 { assert t[i] == CodingPrefix[i + 1]; }
      else if i < p - 1 + |x| { assert t[i] == x[i - (p - 1)]; }
      else { assert t[i] == ending[i - (p - 1 + |x|)]; }
    }
  }

  /** The lazy search gives up at a line terminator it reaches before any `-*-\n`. */
  lemma {:induction false} CrlfNoMatch(s: string, k: nat, stop: nat)
    requires k <= stop < |s| && IsLineTerminator(s[stop])
    requires forall j :: k <= j <= stop ==> !OccursAt(s, CodingSuffix, j)
    requires forall j :: k <= j < stop ==> !IsLineTerminator(s[j])
    ensures LazyEnd(s, k) == None
    decreases stop - k
  {
    if k < stop {
      CrlfNoMatch(s, k + 1, stop);
    }
  }

  /** The replace is a single pass: removing a declaration can join the text
      around it into a new one, which stays. */
  lemma ScrubIsOnePass(x: string, y: string)
    requires forall i :: 0 <= i < |x| ==> !IsLineTerminator(x[i])
    requires NoHash(y)
    ensures Scrub("#" + CodingLine(x) + CodingPrefix[1..] + y + CodingSuffix) == CodingLine(y)
  {
    var d, tail := CodingLine(x), CodingPrefix[1..] + y + CodingSuffix;
    var s := "#" + d + tail;
    OnePassShape(d, CodingPrefix[1..], y, CodingSuffix);
    NoMatchBeforeHash(s);
    KeptFirst(s, d + tail);
    ScrubRemovesDeclaration(x, tail);
    DeclarationTailPlain(y, CodingSuffix);
    ScrubKeepsPlainText(tail, []);
    assert tail + [] == tail;
    CodingLineSplit(y);
    calc {
      Scrub(s);
      ['#'] + Scrub(d + tail);
      ['#'] + Scrub(tail);
      ['#'] + tail;
    }
  }

  lemma OnePassShape(d: string, u: string, v: string, w: string)
    requires StartsWith(d, "#")
    ensures ("#" + d + (u + v + w))[0] == '#'
    ensures ("#" + d + (u + v + w))[1] == '#'
    ensures ("#" + d + (u + v + w))[1..] == d + (u + v + w)
    ensures "#" + d + u + v + w == "#" + d + (u + v + w)
  {
  }

  /** No declaration starts at a `#` that is followed by another `#`. */
  lemma NoMatchBeforeHash(s: string)
    requires |s| >= 2 && s[1] == '#'
    ensures MatchAt(s) == None
  {
    assert CodingPrefix[1] == ' ';
  }

  lemma CodingLineSplit(y: string)
    ensures "#" + (CodingPrefix[1..] + y + CodingSuffix) == CodingLine(y)
  {
  }

  /** The result always starts with the UTF-8 declaration; trimmed text in
      which no declaration starts follows it unchanged. */
  lemma NormalizeHeaderShape(text: string)
    ensures StartsWith(NormalizeHeader(text), Header)
    ensures NoDeclarationBefore(JsTrim(text), |JsTrim(text)|) ==> NormalizeHeader(text) == Header + JsTrim(text)
  {
    var t := JsTrim(text);
    assert t + [] == t;
    if NoDeclarationBefore(t, |t|) {
      ScrubKeepsUndeclared(t, []);
      assert Scrub([]) == [];
    }
  }

  // ---------------------------------------------------------------------------

  /** `decryptCode`; a failing decipher (a short initialisation vector, bad
      padding) is thrown on. */
  function DecryptCode(data: seq<byte>, decipher: (seq<byte>, seq<byte>, seq<byte>) -> Result<seq<byte>>,
                       decode: seq<byte> -> string): Result<string>
  {
    var (iv, content) := SplitIv(data);
    match decipher(Key, iv, content)
    case Err(e) => Err(e)
    case Ok(plain) => Ok(NormalizeHeader(decode(plain)))
  }

  /** What is started: the entry-point file name inside the temporary
      directory, and for an encrypted package the source written to it. */
  datatype Launch = Launch(mainFile: string, source: Option<string>)

  /** The ZIP branch looks for the entry point; the other branch decrypts
      into `_temp.py`. */
  function PlanLaunch(softwareCode: string, data: seq<byte>, listing: seq<string>,
                      decipher: (seq<byte>, seq<byte>, seq<byte>) -> Result<seq<byte>>,
                      decode: seq<byte> -> string): Result<Launch>
  {
    if IsZip(data) then
      match SelectMainFile(softwareCode, listing)
      case Ok(main) => Ok(Launch(main, None))
      case Err(e) => Err(e)
    else
      match DecryptCode(data, decipher, decode)
      case Ok(source) => Ok(Launch("_temp.py", Some(source)))
      case Err(e) => Err(e)
  }

  /** Decrypted sources always carry the declaration; archives never go
      through the decipher; the decipher sees the whole package, split after
      byte 16. */
  lemma PlanLaunchBranches(softwareCode: string, data: seq<byte>, listing: seq<string>,
                           decipher: (seq<byte>, seq<byte>, seq<byte>) -> Result<seq<byte>>,
                           decode: seq<byte> -> string)
    ensures IsZip(data) ==> PlanLaunch(softwareCode, data, listing, decipher, decode).Ok?
                            == SelectMainFile(softwareCode, listing).Ok?
    ensures !IsZip(data) && PlanLaunch(softwareCode, data, listing, decipher, decode).Ok? ==>
      var l := PlanLaunch(softwareCode, data, listing, decipher, decode).value;
      && l.mainFile == "_temp.py" && l.source.Some? && StartsWith(l.source.value, Header)
      && decipher(Key, SplitIv(data).0, SplitIv(data).1).Ok?
    ensures !IsZip(data) ==> SplitIv(data).0 + SplitIv(data).1 == data
  {
    if !IsZip(data) {
      var (iv, content) := SplitIv(data);
      match decipher(Key, iv, content)
      case Ok(plain) => NormalizeHeaderShape(decode(plain));
      case Err(_) =>
    }
  }
}
