/** The parts of Python's `posixpath` the downloaders use to build paths:
    `join`, `basename` and `dirname`, with `/` as the only separator. */
module PosixPath {
  import opened Results
  import opened Text

  /** `posixpath.join(a, b)`: an absolute `b` replaces `a`; otherwise a
      separator is added unless `a` is empty or already ends in one. */
  function Join(a: string, b: string): string
  {
    if StartsWith(b, "/") then b
    else if a == "" || EndsWith(a, "/") then a + b
    else a + "/" + b
  }

  /** `posixpath.join(a, *parts)`, folding from the left. */
  function JoinAll(a: string, parts: seq<string>): string
    decreases |parts|
  {
    if |parts| == 0 then a else JoinAll(Join(a, parts[0]), parts[1..])
  }

  /** Index just after the last `/`, or 0 (`p.rfind('/') + 1`). */
  function SplitIndex(p: string): (i: nat)
    ensures i <= |p|
    ensures i > 0 ==> p[i - 1] == '/'
    ensures forall j :: i <= j < |p| ==> p[j] != '/'
  {
    match LastIndexOf(p, '/')
    case Some(k) => k + 1
    case None => 0
  }

  /** `posixpath.basename(p)`. */
  function Basename(p: string): string
  {
    p[SplitIndex(p)..]
  }

  predicate AllSlashes(s: string)
  {
    forall i :: 0 <= i < |s| ==> s[i] == '/'
  }

  /** `posixpath.dirname(p)`: everything before the last `/`, with trailing
      slashes removed unless the head is nothing but slashes. */
  function Dirname(p: string): string
  {
    var head := p[..SplitIndex(p)];
    if head != "" && !AllSlashes(head) then TrimEnd(head, c => c == '/') else head
  }

  /** `basename` returns what follows the last separator. */
  lemma BasenameAfterSlash(prefix: string, b: string)
    requires forall i :: 0 <= i < |b| ==> b[i] != '/'
    ensures Basename(prefix + "/" + b) == b
  {
    var p := prefix + "/" + b;
    assert p[|p| - |b|..] == b;
    var i := SplitIndex(p);
    assert p[|p| - |b| - 1] == '/';
    assert forall j :: |p| - |b| <= j < |p| ==> p[j] == b[j - (|p| - |b|)];
  }

  /** A name without separators is what `basename` reads back from a join. */
  lemma BasenameJoin(a: string, b: string)
    requires b != "" && forall i :: 0 <= i < |b| ==> b[i] != '/'
    ensures Basename(Join(a, b)) == b
  {
    var p := Join(a, b);
    assert p[|p| - |b|..] == b;
    var i := SplitIndex(p);
    assert |p| > |b| ==> p[|p| - |b| - 1] == '/';
    assert forall j :: |p| - |b| <= j < |p| ==> p[j] == b[j - (|p| - |b|)];
  }

  /** ... and `dirname` reads back the directory it was joined to. */
  lemma DirnameJoin(a: string, b: string)
    requires a != "" && !EndsWith(a, "/")
    requires b != "" && forall i :: 0 <= i < |b| ==> b[i] != '/'
    ensures Dirname(Join(a, b)) == a
  {
    var p := Join(a, b);
    assert !StartsWith(b, "/");
    assert p == a + "/" + b;
    BasenameJoin(a, b);
    var i := SplitIndex(p);
    assert i == |a| + 1 by {
      assert p[|p| - |b|..] == b;
    }
    var head := p[..i];
    assert head == a + "/";
    assert a[|a| - 1] != '/' by { assert a[|a| - 1..] != "/"; }
    assert !AllSlashes(head) by { assert head[|a| - 1] == a[|a| - 1]; }
    TrimEndOneSlash(a);
  }

  lemma TrimEndOneSlash(a: string)
    requires a != "" && a[|a| - 1] != '/'
    ensures TrimEnd(a + "/", c => c == '/') == a
  {
    var s := a + "/";
    assert s[..|s| - 1] == a;
  }
}
