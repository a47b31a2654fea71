/** What `SoftwareManager.runSoftware` (software_manager.js) decides about the
    files of a package before starting Python: whether the package is a ZIP
    archive, which data files are copied into the work directory, which file
    is the entry point, and how an encrypted package becomes source text. */
module LaunchFiles {
  import opened Results
  import opened Text
  import opened PosixPath

  // ---------------------------------------------------------------------------
  // The ZIP test: `data.slice(0, 4).toString('hex') === '504b0304'`.

  /** The two lower-case hexadecimal digits of a byte. */
  function HexByte(b: byte): string
  {
    [HexDigit(b as int / 16), HexDigit(b as int % 16)]
  }

  /** `Buffer.toString('hex')`. */
  function HexOf(bs: seq<byte>): (r: string)
    ensures |r| == 2 * |bs|
    decreases |bs|
  {
    if |bs| == 0 then [] else HexByte(bs[0]) + HexOf(bs[1..])
  }

  function Min(a: int, b: int): int
  {
    if a <= b then a else b
  }

  /** The test of line 126, as written. */
  predicate IsZip(data: seq<byte>)
  {
    HexOf(data[..Min(4, |data|)]) == "504b0304"
  }

  lemma HexByteInjective(a: byte, b: byte)
    requires HexByte(a) == HexByte(b)
    ensures a == b
  {
    HexDigitRoundTrip(a as int / 16);
    HexDigitRoundTrip(a as int % 16);
    HexDigitRoundTrip(b as int / 16);
    HexDigitRoundTrip(b as int % 16);
    assert HexByte(a)[0] == HexByte(b)[0] && HexByte(a)[1] == HexByte(b)[1];
  }

  lemma HexOfFour(p: seq<byte>)
    requires |p| == 4
    ensures HexOf(p) == HexByte(p[0]) + HexByte(p[1]) + HexByte(p[2]) + HexByte(p[3])
  {
    assert HexOf(p) == HexByte(p[0]) + HexOf(p[1..]);
    assert HexOf(p[1..]) == HexByte(p[1]) + HexOf(p[2..]) by { assert p[1..][1..] == p[2..]; }
    assert HexOf(p[2..]) == HexByte(p[2]) + HexOf(p[3..]) by { assert p[2..][1..] == p[3..]; }
    assert HexOf(p[3..]) == HexByte(p[3]) by { assert p[3..][1..] == []; }
  }

  /** Equal concatenations of two-character pieces have equal pieces. */
  lemma PairsEqual(a: seq<string>, b: seq<string>)
    requires |a| == 4 && |b| == 4
    requires forall i :: 0 <= i < 4 ==> |a[i]| == 2 && |b[i]| == 2
    requires a[0] + a[1] + a[2] + a[3] == b[0] + b[1] + b[2] + b[3]
    ensures a == b
  {
    var s := a[0] + a[1] + a[2] + a[3];
    assert s[0..2] == a[0] && s[2..4] == a[1] && s[4..6] == a[2] && s[6..8] == a[3];
    assert s[0..2] == b[0] && s[2..4] == b[1] && s[4..6] == b[2] && s[6..8] == b[3];
  }

  /** The package is treated as a ZIP archive exactly when it starts with the
      local file header signature `PK\x03\x04`; shorter data never is. */
  lemma IsZipMagic(data: seq<byte>)
    ensures IsZip(data) <==> |data| >= 4 && data[0] == 0x50 && data[1] == 0x4B && data[2] == 0x03 && data[3] == 0x04
  {
    if |data| >= 4 {
      var p := data[..4];
      HexOfFour(p);
      var magic: seq<byte> := [0x50, 0x4B, 0x03, 0x04];
      assert "504b0304" == HexByte(magic[0]) + HexByte(magic[1]) + HexByte(magic[2]) + HexByte(magic[3]);
      if IsZip(data) {
        PairsEqual([HexByte(p[0]), HexByte(p[1]), HexByte(p[2]), HexByte(p[3])],
                   [HexByte(magic[0]), HexByte(magic[1]), HexByte(magic[2]), HexByte(magic[3])]);
        HexByteInjective(p[0], magic[0]);
        HexByteInjective(p[1], magic[1]);
        HexByteInjective(p[2], magic[2]);
        HexByteInjective(p[3], magic[3]);
      }
    }
  }

  // ---------------------------------------------------------------------------
  // Data files copied into the work directory (lines 141-151).

  /** The lower-cased entry name ends in `.json`, `.txt`, `.csv` or `.db`. */
  predicate IsDataFile(entryName: string)
  {
    var n := Lower(entryName);
    EndsWith(n, ".json") || EndsWith(n, ".txt") || EndsWith(n, ".csv") || EndsWith(n, ".db")
  }

  /** The work directory's files, as paths relative to it, and the entries
      extracted so far. */
  datatype CopyState = CopyState(present: set<string>, copied: seq<string>)

  /** One `forEach` step as written: the existence test looks at the entry's
      full path, but `extractEntryTo(entry, dir, false, true)` writes the file
      under its base name, overwriting. */
  function CopyEntryAsWritten(st: CopyState, entryName: string): CopyState
  {
    if IsDataFile(entryName) && entryName !in st.present
    then CopyState(st.present + {Basename(entryName)}, st.copied + [entryName])
    else st
  }

  function CopyDataFilesAsWritten(entries: seq<string>, present: set<string>): CopyState
    decreases |entries|
  {
    if |entries| == 0 then CopyState(present, [])
    else CopyEntryAsWritten(CopyDataFilesAsWritten(entries[..|entries| - 1], present), entries[|entries| - 1])
  }

  /** The counterexample: a user's `x.json` in the work directory is
      overwritten by the archive's `data/x.json`, because the test looked for
      `data/x.json`. */
  lemma AsWrittenOverwritesUserData()
    ensures CopyDataFilesAsWritten(["data/x.json"], {"x.json"}).copied == ["data/x.json"]
    ensures Basename("data/x.json") == "x.json"
  {
    var e := "data/x.json";
    assert ["data/x.json"][..0] == [];
    assert Lower(e)[|e| - 5..] == ".json";
    assert e != "x.json" by { assert |e| != 6; }
    BasenameAfterSlash("data", "x.json");
    assert "data" + "/" + "x.json" == e;
  }

  /** As written, a data file inside a folder of the archive is copied again
      at every start, because the file it wrote is never found under the
      entry's own path; the user's edits to it are lost each time. */
  lemma AsWrittenRecopies(present: set<string>)
    requires "data/x.json" !in present
    ensures CopyDataFilesAsWritten(["data/x.json"], present).copied == ["data/x.json"]
    ensures CopyDataFilesAsWritten(["data/x.json"], CopyDataFilesAsWritten(["data/x.json"], present).present).copied
      == ["data/x.json"]
  {
    var e := "data/x.json";
    assert ["data/x.json"][..0] == [];
    assert Lower(e)[|e| - 5..] == ".json";
    BasenameAfterSlash("data", "x.json");
    assert "data" + "/" + "x.json" == e;
    assert e != "x.json" by { assert |e| != 6; }
  }

  /** One step as intended: the test looks where the file will be written. */
  function CopyEntry(st: CopyState, entryName: string): CopyState
  {
    if IsDataFile(entryName) && Basename(entryName) !in st.present
    then CopyState(st.present + {Basename(entryName)}, st.copied + [entryName])
    else st
  }

  function CopyDataFiles(entries: seq<string>, present: set<string>): CopyState
    decreases |entries|
  {
    if |entries| == 0 then CopyState(present, [])
    else CopyEntry(CopyDataFiles(entries[..|entries| - 1], present), entries[|entries| - 1])
  }

  /** Afterwards every data entry's file is present, and nothing present
      before has gone. */
  lemma CopyDataFilesCovers(entries: seq<string>, present: set<string>)
    ensures present <= CopyDataFiles(entries, present).present
    ensures forall e :: e in entries && IsDataFile(e) ==> Basename(e) in CopyDataFiles(entries, present).present
  {
    CopyKeepsPresent(entries, present);
    CopyReachesEveryEntry(entries, present);
  }

  lemma {:induction false} CopyKeepsPresent(entries: seq<string>, present: set<string>)
    ensures present <= CopyDataFiles(entries, present).present
    decreases |entries|
  {
    if |entries| > 0 {
      CopyKeepsPresent(entries[..|entries| - 1], present);
    }
  }

  lemma {:induction false} CopyReachesEveryEntry(entries: seq<string>, present: set<string>)
    ensures forall e :: e in entries && IsDataFile(e) ==> Basename(e) in CopyDataFiles(entries, present).present
    decreases |entries|
  {
    if |entries| > 0 {
      var init := entries[..|entries| - 1];
      CopyReachesEveryEntry(init, present);
      assert forall e :: e in entries ==> e in init || e == entries[|entries| - 1];
    }
  }

  /** A step keeps what was present and copied, and records the copy it
      makes where it is written. */
  lemma CopyStep(st: CopyState, e: string)
    ensures var r := CopyEntry(st, e);
      && st.present <= r.present
      && |st.copied| <= |r.copied| <= |st.copied| + 1
      && (forall i :: 0 <= i < |st.copied| ==> r.copied[i] == st.copied[i])
      && (|r.copied| > |st.copied| ==> r.copied[|st.copied|] == e && IsDataFile(e)
                                       && Basename(e) !in st.present && Basename(e) in r.present)
  {
  }

  /** Intended behaviour: only data files are copied, no file present before
      is overwritten, and no two copied entries land on the same name. */
  lemma CopyDataFilesNeverOverwrites(entries: seq<string>, present: set<string>)
    ensures var st := CopyDataFiles(entries, present);
      forall i :: 0 <= i < |st.copied| ==> IsDataFile(st.copied[i]) && Basename(st.copied[i]) !in present
    ensures var st := CopyDataFiles(entries, present);
      forall i, j :: 0 <= i < j < |st.copied| ==> Basename(st.copied[i]) != Basename(st.copied[j])
    ensures var st := CopyDataFiles(entries, present);
      forall i :: 0 <= i < |st.copied| ==> Basename(st.copied[i]) in st.present
  {
    CopiedAreNew(entries, present);
    CopiedAreDistinct(entries, present);
    CopiedArePresent(entries, present);
  }

  /** Every copied entry's file is in the directory. */
  predicate CopiesPresent(st: CopyState)
  {
    forall i :: 0 <= i < |st.copied| ==> Basename(st.copied[i]) in st.present
  }

  /** No two copied entries were written to the same file. */
  predicate CopiesDistinct(st: CopyState)
  {
    forall i, j :: 0 <= i < j < |st.copied| ==> Basename(st.copied[i]) != Basename(st.copied[j])
  }

  lemma {:induction false} CopiedArePresent(entries: seq<string>, present: set<string>)
    ensures CopiesPresent(CopyDataFiles(entries, present))
    decreases |entries|
  {
    if |entries| > 0 {
      var init := entries[..|entries| - 1];
      var st := CopyDataFiles(init, present);
      var e := entries[|entries| - 1];
      var r := CopyEntry(st, e);
      assert CopyDataFiles(entries, present) == r;
      CopiedArePresent(init, present);
      CopyStep(st, e);
      forall i | 0 <= i < |r.copied|
        ensures Basename(r.copied[i]) in r.present
      {
        if i < |st.copied| {
          assert r.copied[i] == st.copied[i];
          assert Basename(st.copied[i]) in st.present;
        }
      }
    }
  }

  lemma {:induction false} CopiedAreNew(entries: seq<string>, present: set<string>)
    ensures var st := CopyDataFiles(entries, present);
      forall i :: 0 <= i < |st.copied| ==> IsDataFile(st.copied[i]) && Basename(st.copied[i]) !in present
    decreases |entries|
  {
    if |entries| > 0 {
      var init := entries[..|entries| - 1];
      CopiedAreNew(init, present);
      CopyKeepsPresent(init, present);
      CopyStep(CopyDataFiles(init, present), entries[|entries| - 1]);
    }
  }

  lemma {:induction false} CopiedAreDistinct(entries: seq<string>, present: set<string>)
    ensures CopiesDistinct(CopyDataFiles(entries, present))
    decreases |entries|
  {
    if |entries| > 0 {
      var init := entries[..|entries| - 1];
      var st := CopyDataFiles(init, present);
      var e := entries[|entries| - 1];
      var r := CopyEntry(st, e);
      assert CopyDataFiles(entries, present) == r;
      CopiedAreDistinct(init, present);
      CopiedArePresent(init, present);
      CopyStep(st, e);
      forall i, j | 0 <= i < j < |r.copied|
        ensures Basename(r.copied[i]) != Basename(r.copied[j])
      {
        assert r.copied[i] == st.copied[i];
        if j < |st.copied| {
          assert r.copied[j] == st.copied[j];
          assert Basename(st.copied[i]) != Basename(st.copied[j]);
        } else {
          assert Basename(st.copied[i]) in st.present;
        }
      }
    }
  }

  /** When every data entry's file is already there, nothing is copied. */
  lemma {:induction false} NothingToCopy(entries: seq<string>, present: set<string>)
    requires forall e :: e in entries && IsDataFile(e) ==> Basename(e) in present
    ensures CopyDataFiles(entries, present) == CopyState(present, [])
    decreases |entries|
  {
    if |entries| > 0 {
      var init := entries[..|entries| - 1];
      assert forall e :: e in init ==> e in entries;
      NothingToCopy(init, present);
      assert entries[|entries| - 1] in entries;
    }
  }

  /** Running the same archive again copies nothing. */
  lemma SecondCopyIsEmpty(entries: seq<string>, present: set<string>)
    ensures CopyDataFiles(entries, CopyDataFiles(entries, present).present).copied == []
  {
    CopyDataFilesCovers(entries, present);
    NothingToCopy(entries, CopyDataFiles(entries, present).present);
  }

  /** For entries at the archive's top level the written test is the intended
      one. */
  lemma {:induction false} TopLevelEntriesAgree(entries: seq<string>, present: set<string>)
    requires forall k :: 0 <= k < |entries| ==> forall i :: 0 <= i < |entries[k]| ==> entries[k][i] != '/'
    ensures CopyDataFilesAsWritten(entries, present) == CopyDataFiles(entries, present)
    decreases |entries|
  {
    if |entries| > 0 {
      var init := entries[..|entries| - 1];
      TopLevelEntriesAgree(init, present);
      var e := entries[|entries| - 1];
      assert Basename(e) == e by {
        assert SplitIndex(e) == 0;
      }
    }
  }

  // ---------------------------------------------------------------------------
  // The entry point (lines 157-170).

  const NoPythonFile := "找不到任何Python文件"

  /** The order of `Array.prototype.sort` without a comparator, on names made
      of characters of the Basic Multilingual Plane: lexicographic by code
      unit, a proper prefix first. */
  predicate LexLe(a: string, b: string)
    decreases |a|
  {
    if a == [] then true
    else if b == [] then false
    else if a[0] != b[0] then a[0] < b[0]
    else LexLe(a[1..], b[1..])
  }

  lemma {:induction false} LexLeTotal(a: string, b: string)
    ensures LexLe(a, b) || LexLe(b, a)
    decreases |a|
  {
    if a != [] && b != [] && a[0] == b[0] {
      LexLeTotal(a[1..], b[1..]);
    }
  }

  lemma {:induction false} LexLeAntisymmetric(a: string, b: string)
    requires LexLe(a, b) && LexLe(b, a)
    ensures a == b
    decreases |a|
  {
    if a != [] && b != [] {
      LexLeAntisymmetric(a[1..], b[1..]);
      assert a == [a[0]] + a[1..] && b == [b[0]] + b[1..];
    }
  }

  lemma {:induction false} LexLeTransitive(a: string, b: string, c: string)
    requires LexLe(a, b) && LexLe(b, c)
    ensures LexLe(a, c)
    decreases |a|
  {
    if a != [] && b != [] && c != [] && a[0] == b[0] && b[0] == c[0] {
      LexLeTransitive(a[1..], b[1..], c[1..]);
    }
  }

  predicate IsPythonFile(name: string)
  {
    EndsWith(Lower(name), ".py")
  }

  /** `.filter(file => file.toLowerCase().endsWith('.py'))`. */
  function PythonFiles(names: seq<string>): (r: seq<string>)
    ensures forall n :: n in r <==> n in names && IsPythonFile(n)
    decreases |names|
  {
    if |names| == 0 then []
    else PythonFiles(names[..|names| - 1]) + (if IsPythonFile(names[|names| - 1]) then [names[|names| - 1]] else [])
  }

  /** The least name in the order. */
  function Least(names: seq<string>): (m: string)
    requires |names| > 0
    ensures m in names
    ensures forall n :: n in names ==> LexLe(m, n)
    decreases |names|
  {
    if |names| == 1 then
      LexLeReflexive(names[0]);
      assert forall n :: n in names ==> n == names[0];
      names[0]
    else
      var rest := Least(names[1..]);
      LexLeTotal(names[0], rest);
      LeastStep(names, rest);
      if LexLe(names[0], rest) then names[0] else rest
  }

  lemma LeastStep(names: seq<string>, rest: string)
    requires |names| > 1 && rest in names[1..]
    requires forall n :: n in names[1..] ==> LexLe(rest, n)
    ensures LexLe(names[0], rest) ==> forall n :: n in names ==> LexLe(names[0], n)
    ensures !LexLe(names[0], rest) ==> forall n :: n in names ==> LexLe(rest, n)
  {
    assert forall n :: n in names ==> n == names[0] || n in names[1..];
    forall n | n in names[1..] && LexLe(names[0], rest)
      ensures LexLe(names[0], n)
    {
      LexLeTransitive(names[0], rest, n);
    }
    LexLeTotal(names[0], rest);
    LexLeReflexive(names[0]);
    LexLeReflexive(rest);
  }

  lemma {:induction false} LexLeReflexive(a: string)
    ensures LexLe(a, a)
    decreases |a|
  {
    if a != [] {
      LexLeReflexive(a[1..]);
    }
  }

  predicate Sorted(s: seq<string>)
  {
    forall i, j :: 0 <= i < j < |s| ==> LexLe(s[i], s[j])
  }

  /** Whatever sorting algorithm is used, the first name of a sorted
      permutation is the least one: `pyFiles[0]` is `Least`. */
  lemma SortedFirstIsLeast(names: seq<string>, sorted: seq<string>)
    requires |names| > 0
    requires multiset(sorted) == multiset(names) && Sorted(sorted)
    ensures sorted[0] == Least(names)
  {
    var m := Least(names);
    assert sorted[0] in multiset(names);
    assert m in multiset(sorted);
    var j :| 0 <= j < |sorted| && sorted[j] == m;
    if j > 0 {
      assert LexLe(sorted[0], sorted[j]);
    } else {
      LexLeReflexive(m);
    }
    LexLeAntisymmetric(sorted[0], m);
  }

  /** The entry point among the names `readdirSync` lists for the extracted
      package (an `existsSync` test on one of them is membership). */
  function SelectMainFile(softwareCode: string, listing: seq<string>): Result<string>
  {
    if "__main__.py" in listing then Ok("__main__.py")
    else if softwareCode + ".py" in listing then Ok(softwareCode + ".py")
    else
      var py := PythonFiles(listing);
      if |py| == 0 then Err(NoPythonFile) else Ok(Least(py))
  }

  /** The priority: `__main__.py`, then `<code>.py`, then the first Python file
      in sorted order; an error exactly when the package holds no Python file
      at all (`__main__.py` and `<code>.py` are Python files themselves). */
  lemma SelectMainFilePriority(softwareCode: string, listing: seq<string>)
    ensures "__main__.py" in listing ==> SelectMainFile(softwareCode, listing) == Ok("__main__.py")
    ensures "__main__.py" !in listing && softwareCode + ".py" in listing
      ==> SelectMainFile(softwareCode, listing) == Ok(softwareCode + ".py")
    ensures SelectMainFile(softwareCode, listing).Err?
      <==> forall n :: n in listing ==> !IsPythonFile(n)
    ensures SelectMainFile(softwareCode, listing).Ok? ==>
      var main := SelectMainFile(softwareCode, listing).value;
      main in listing && IsPythonFile(main)
    ensures "__main__.py" !in listing && softwareCode + ".py" !in listing && SelectMainFile(softwareCode, listing).Ok? ==>
      forall n :: n in listing && IsPythonFile(n) ==> LexLe(SelectMainFile(softwareCode, listing).value, n)
  {
    PythonSuffix("__main__.py");
    PythonSuffix(softwareCode + ".py");
    var py := PythonFiles(listing);
    if |py| > 0 {
      assert Least(py) in py;
    } else {
      assert forall n :: n in listing ==> !IsPythonFile(n) by {
        forall n | n in listing && IsPythonFile(n) ensures n in py { }
      }
    }
  }

  /** Any name ending in `.py` is a Python file. */
  lemma PythonSuffix(name: string)
    requires EndsWith(name, ".py")
    ensures IsPythonFile(name)
  {
    var l := Lower(name);
    assert l[|l| - 3..] == ".py" by {
      assert l[|l| - 3] == LowerChar(name[|name| - 3]);
      assert l[|l| - 2] == LowerChar(name[|name| - 2]);
      assert l[|l| - 1] == LowerChar(name[|name| - 1]);
      assert name[|name| - 3..] == ".py";
    }
  }
}
