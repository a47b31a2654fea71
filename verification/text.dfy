/** String primitives shared by the Python and JavaScript parts of the model:
    prefix and suffix tests, first-occurrence search, ASCII lower-casing, the two
    whitespace-stripping rules (Python `str.strip()` and JavaScript `trim()`),
    `' '.join`, and decimal rendering of integers as done by f-strings and
    template literals. */
module Text {
  import opened Results

  predicate StartsWith(s: string, prefix: string)
  {
    |prefix| <= |s| && s[..|prefix|] == prefix
  }

  predicate EndsWith(s: string, suffix: string)
  {
    |suffix| <= |s| && s[|s| - |suffix|..] == suffix
  }

  /** A prefix followed by a prefix of the rest. */
  lemma StartsWithThen(s: string, p: string, q: string)
    requires StartsWith(s, p) && StartsWith(s[|p|..], q)
    ensures StartsWith(s, p + q)
  {
    assert s[..|p| + |q|] == s[..|p|] + s[|p|..][..|q|];
  }

  /** A prefix of a prefix of `s` is a prefix of `s`. */
  lemma StartsWithPrefixOf(s: string, t: string, p: string)
    requires |t| <= |s| && t == s[..|t|]
    ensures StartsWith(t, p) ==> StartsWith(s, p)
  {
    if StartsWith(t, p) {
      assert s[..|p|] == t[..|p|];
    }
  }

  /** `pattern` occurs in `s` starting at index `i`. */
  predicate OccursAt(s: string, pattern: string, i: nat)
  {
    i + |pattern| <= |s| && s[i..i + |pattern|] == pattern
  }

  /** Index of the first occurrence of `pattern` in `s` at or after `from`. */
  function FindFrom(s: string, pattern: string, from: nat): (r: Option<nat>)
    ensures r.Some? ==> from <= r.value && OccursAt(s, pattern, r.value)
    ensures r.Some? ==> forall j :: from <= j < r.value ==> !OccursAt(s, pattern, j)
    ensures r.None? ==> forall j :: from <= j ==> !OccursAt(s, pattern, j)
    decreases |s| - from
  {
    if from + |pattern| > |s| then None
    else if s[from..from + |pattern|] == pattern then Some(from)
    else FindFrom(s, pattern, from + 1)
  }

  /** Index of the first occurrence, as Python's `str.find` / `str.split(sep, 1)` use it. */
  function FindFirst(s: string, pattern: string): Option<nat>
  {
    FindFrom(s, pattern, 0)
  }

  /** Python's `pattern in s`. */
  predicate Contains(s: string, pattern: string)
  {
    FindFirst(s, pattern).Some?
  }

  /** One differing character rules an occurrence out. */
  lemma MismatchAt(s: string, pattern: string, j: nat, k: nat)
    requires k < |pattern|
    requires j + k < |s| ==> s[j + k] != pattern[k]
    ensures !OccursAt(s, pattern, j)
  {
    if j + |pattern| <= |s| {
      assert s[j..j + |pattern|][k] == s[j + k];
    }
  }

  /** The first occurrence is the only index that occurs with nothing earlier. */
  lemma FindFirstIsEarliest(s: string, pattern: string, i: nat)
    requires OccursAt(s, pattern, i)
    requires forall j :: 0 <= j < i ==> !OccursAt(s, pattern, j)
    ensures FindFirst(s, pattern) == Some(i)
  {
  }

  /** If two strings agree up to the end of the first occurrence of `pattern`
      in one of them, the first occurrence in the other is at the same index. */
  lemma FirstOccurrenceSharedPrefix(s: string, t: string, pattern: string, i: nat)
    requires FindFirst(s, pattern) == Some(i)
    requires i + |pattern| <= |t|
    requires s[..i + |pattern|] == t[..i + |pattern|]
    ensures FindFirst(t, pattern) == Some(i)
  {
    var n := i + |pattern|;
    forall j | 0 <= j <= i
      ensures OccursAt(t, pattern, j) == OccursAt(s, pattern, j)
    {
      SliceOfPrefix(s, n, j, j + |pattern|);
      SliceOfPrefix(t, n, j, j + |pattern|);
    }
    FindFirstIsEarliest(t, pattern, i);
  }

  lemma SliceOfPrefix(s: string, n: nat, j: nat, m: nat)
    requires j <= m <= n <= |s|
    ensures s[j..m] == s[..n][j..m]
  {
  }

  function LowerChar(c: char): (r: char)
  {
    if 'A' <= c <= 'Z' then (c as int + 32) as char else c
  }

  /** Lower-casing as `str.lower()` / `toLowerCase()` do on ASCII letters. */
  function Lower(s: string): (r: string)
    ensures |r| == |s|
    ensures forall i :: 0 <= i < |s| ==> r[i] == LowerChar(s[i])
    decreases |s|
  {
    if |s| == 0 then [] else Lower(s[..|s| - 1]) + [LowerChar(s[|s| - 1])]
  }

  /** The characters Python's `str.isspace()` accepts; `str.strip()` with no
      argument removes exactly these. */
  predicate IsPySpace(c: char)
  {
    c == ' ' || ('\t' <= c <= '\r') || ('\U{1c}' <= c <= '\U{1f}')
    || c == '\U{85}' || c == '\U{a0}' || c == '\U{1680}' || ('\U{2000}' <= c <= '\U{200a}')
    || c == '\U{2028}' || c == '\U{2029}' || c == '\U{202f}' || c == '\U{205f}' || c == '\U{3000}'
  }

  /** The characters JavaScript's `String.prototype.trim` removes
      (WhiteSpace and LineTerminator of ECMAScript). */
  predicate IsJsSpace(c: char)
  {
    c == ' ' || ('\t' <= c <= '\r') || c == '\U{a0}' || c == '\U{feff}' || c == '\U{1680}'
    || ('\U{2000}' <= c <= '\U{200a}') || c == '\U{2028}' || c == '\U{2029}' || c == '\U{202f}'
    || c == '\U{205f}' || c == '\U{3000}'
  }

  /** Removes the leading characters satisfying `strip` (Python `lstrip(chars)`). */
  function TrimStart(s: string, strip: char -> bool): (r: string)
    ensures |r| <= |s| && r == s[|s| - |r|..]
    ensures forall i :: 0 <= i < |s| - |r| ==> strip(s[i])
    ensures r != [] ==> !strip(r[0])
    decreases |s|
  {
    if |s| > 0 && strip(s[0]) then TrimStart(s[1..], strip) else s
  }

  /** Removes the trailing characters satisfying `strip` (Python `rstrip(chars)`). */
  function TrimEnd(s: string, strip: char -> bool): (r: string)
    ensures |r| <= |s| && r == s[..|r|]
    ensures forall i :: |r| <= i < |s| ==> strip(s[i])
    ensures r != [] ==> !strip(r[|r| - 1])
    decreases |s|
  {
    if |s| > 0 && strip(s[|s| - 1]) then TrimEnd(s[..|s| - 1], strip) else s
  }

  /** Trailing stripping stops at a kept character, so what precedes it is untouched. */
  lemma {:induction false} TrimEndConcat(a: string, b: string, strip: char -> bool)
    requires a != [] && !strip(a[|a| - 1])
    ensures TrimEnd(a + b, strip) == a + TrimEnd(b, strip)
    decreases |b|
  {
    if |b| == 0 {
      assert a + b == a;
    } else {
      var b' := b[..|b| - 1];
      assert (a + b)[..|a + b| - 1] == a + b';
      if strip(b[|b| - 1]) {
        TrimEndConcat(a, b', strip);
      }
    }
  }

  /** `r` is the piece of `s` at index `i`, with only characters satisfying
      `strip` before and after it. */
  predicate StrippedFrom(s: string, r: string, strip: char -> bool, i: nat)
  {
    && i + |r| <= |s| && r == s[i..i + |r|]
    && (forall k :: 0 <= k < i ==> strip(s[k]))
    && (forall k :: i + |r| <= k < |s| ==> strip(s[k]))
  }

  /** Removes leading and trailing characters satisfying `strip`. */
  function Trim(s: string, strip: char -> bool): (r: string)
    ensures |r| <= |s|
    ensures r == [] <==> forall i :: 0 <= i < |s| ==> strip(s[i])
    ensures r != [] ==> !strip(r[0]) && !strip(r[|r| - 1])
    ensures |s| > 0 && !strip(s[0]) && !strip(s[|s| - 1]) ==> r == s
  {
    TrimBothEnds(s, strip);
    TrimEnd(TrimStart(s, strip), strip)
  }

  /** Non-empty text does not begin or end with a stripped character. */
  predicate Unpadded(r: string, strip: char -> bool)
  {
    r == [] || (!strip(r[0]) && !strip(r[|r| - 1]))
  }

  /** What `Trim` computes, independently of how: the one piece of `s` that
      has only stripped characters around it and none at its ends. */
  lemma TrimIsOuterRemoved(s: string, strip: char -> bool)
    ensures exists i :: StrippedFrom(s, Trim(s, strip), strip, i)
    ensures Unpadded(Trim(s, strip), strip)
    ensures forall r, i :: StrippedFrom(s, r, strip, i) && Unpadded(r, strip) ==> r == Trim(s, strip)
  {
    var t := TrimStart(s, strip);
    var trimmed := TrimEnd(t, strip);
    assert trimmed == Trim(s, strip);
    InfixOfSuffix(s, t, trimmed, strip);
    forall r, i | StrippedFrom(s, r, strip, i) && Unpadded(r, strip)
      ensures r == trimmed
    {
      StrippedUnique(s, r, i, trimmed, |s| - |t|, strip);
    }
  }

  /** Two unpadded pieces of `s` with only stripped characters around them
      are the same piece. */
  lemma StrippedUnique(s: string, r: string, i: nat, t: string, j: nat, strip: char -> bool)
    requires StrippedFrom(s, r, strip, i) && Unpadded(r, strip)
    requires StrippedFrom(s, t, strip, j) && Unpadded(t, strip)
    ensures r == t
  {
    PieceEnds(s, r, i, strip);
    PieceEnds(s, t, j, strip);
    if r != [] && t != [] {
      assert i == j;
      assert |r| == |t|;
    }
  }

  /** An unpadded piece is empty exactly when everything is stripped;
      otherwise it starts at the first kept character and ends at the last. */
  lemma PieceEnds(s: string, r: string, i: nat, strip: char -> bool)
    requires StrippedFrom(s, r, strip, i) && Unpadded(r, strip)
    ensures r == [] <==> forall k :: 0 <= k < |s| ==> strip(s[k])
    ensures r != [] ==> i < |s| && !strip(s[i]) && !strip(s[i + |r| - 1])
  {
    if r != [] {
      assert s[i] == r[0];
      assert s[i + |r| - 1] == r[|r| - 1];
    }
  }

  /** A prefix `r` of a suffix `t` of `s`, with only stripped characters cut
      off on either side, is an infix of `s`. */
  lemma InfixOfSuffix(s: string, t: string, r: string, strip: char -> bool)
    requires |t| <= |s| && t == s[|s| - |t|..]
    requires forall k :: 0 <= k < |s| - |t| ==> strip(s[k])
    requires |r| <= |t| && r == t[..|r|]
    requires forall k :: |r| <= k < |t| ==> strip(t[k])
    ensures StrippedFrom(s, r, strip, |s| - |t|)
  {
    var i := |s| - |t|;
    forall k | i + |r| <= k < |s|
      ensures strip(s[k])
    {
      assert s[k] == t[k - i];
    }
  }

  lemma TrimBothEnds(s: string, strip: char -> bool)
    ensures TrimEnd(TrimStart(s, strip), strip) == [] ==> forall i :: 0 <= i < |s| ==> strip(s[i])
  {
  }

  /** Python `str.strip()`. */
  function PyStrip(s: string): (r: string)
    ensures |r| <= |s|
    ensures r != [] ==> !IsPySpace(r[0]) && !IsPySpace(r[|r| - 1])
    ensures |s| > 0 && !IsPySpace(s[0]) && !IsPySpace(s[|s| - 1]) ==> r == s
  {
    Trim(s, IsPySpace)
  }

  /** `s.strip()` is the text left once the outer whitespace is removed, and
      the only such text. */
  lemma PyStripIsOuterRemoved(s: string)
    ensures exists i :: StrippedFrom(s, PyStrip(s), IsPySpace, i)
    ensures forall r, i :: StrippedFrom(s, r, IsPySpace, i) && Unpadded(r, IsPySpace) ==> r == PyStrip(s)
  {
    assert PyStrip(s) == Trim(s, IsPySpace);
    TrimIsOuterRemoved(s, IsPySpace);
  }

  /** `s.trim()` is the text left once the outer JavaScript whitespace is
      removed, and the only such text. */
  lemma JsTrimIsOuterRemoved(s: string)
    ensures exists i :: StrippedFrom(s, JsTrim(s), IsJsSpace, i)
    ensures forall r, i :: StrippedFrom(s, r, IsJsSpace, i) && Unpadded(r, IsJsSpace) ==> r == JsTrim(s)
  {
    assert JsTrim(s) == Trim(s, IsJsSpace);
    TrimIsOuterRemoved(s, IsJsSpace);
  }

  /** `s.strip()` is empty exactly when `s` is all whitespace. */
  lemma PyStripEmpty(s: string)
    ensures PyStrip(s) == [] <==> forall i :: 0 <= i < |s| ==> IsPySpace(s[i])
  {
    assert PyStrip(s) == Trim(s, IsPySpace);
  }

  /** JavaScript `String.prototype.trim()`. */
  function JsTrim(s: string): (r: string)
    ensures |r| <= |s|
    ensures r != [] ==> !IsJsSpace(r[0]) && !IsJsSpace(r[|r| - 1])
    ensures |s| > 0 && !IsJsSpace(s[0]) && !IsJsSpace(s[|s| - 1]) ==> r == s
  {
    Trim(s, IsJsSpace)
  }

  /** Python `sep.join(parts)`. */
  function JoinWith(parts: seq<string>, sep: string): string
  {
    if |parts| == 0 then ""
    else if |parts| == 1 then parts[0]
    else parts[0] + sep + JoinWith(parts[1..], sep)
  }

  /** Index of the last occurrence of `c` in `s` (`rfind` / `lastIndexOf`). */
  function LastIndexOf(s: string, c: char): (r: Option<nat>)
    ensures r.Some? ==> r.value < |s| && s[r.value] == c
    ensures r.Some? ==> forall j :: r.value < j < |s| ==> s[j] != c
    ensures r.None? ==> forall j :: 0 <= j < |s| ==> s[j] != c
    decreases |s|
  {
    if |s| == 0 then None
    else if s[|s| - 1] == c then Some(|s| - 1)
    else LastIndexOf(s[..|s| - 1], c)
  }

  // ---------------------------------------------------------------------------
  // Bytes and hexadecimal digits.

  newtype byte = b: int | 0 <= b < 256

  /** The lower-case hexadecimal digit of `d` (as Node's `toString('hex')` writes). */
  function HexDigit(d: nat): (c: char)
    requires d < 16
  {
    "0123456789abcdef"[d]
  }

  /** A hexadecimal digit in either case. */
  predicate IsHexChar(c: char)
  {
    '0' <= c <= '9' || 'a' <= c <= 'f' || 'A' <= c <= 'F'
  }

  function HexValue(c: char): (d: nat)
    requires IsHexChar(c)
    ensures d < 16
  {
    if '0' <= c <= '9' then c as int - '0' as int
    else if 'a' <= c <= 'f' then c as int - 'a' as int + 10
    else c as int - 'A' as int + 10
  }

  /** Reading a written digit gives the number back. */
  lemma HexDigitRoundTrip(d: nat)
    requires d < 16
    ensures IsHexChar(HexDigit(d)) && HexValue(HexDigit(d)) == d
  {
  }

  // ---------------------------------------------------------------------------
  // Decimal rendering, as `f"{n}"` in Python and `${n}` in JavaScript print an integer.

  predicate IsDigit(c: char)
  {
    '0' <= c <= '9'
  }

  predicate AllDigits(s: string)
  {
    forall i :: 0 <= i < |s| ==> IsDigit(s[i])
  }

  function DigitChar(d: nat): (c: char)
    requires d < 10
    ensures IsDigit(c)
  {
    ('0' as int + d) as char
  }

  function NatToDecimal(n: nat): (r: string)
    ensures |r| >= 1 && AllDigits(r)
    ensures |r| > 1 ==> r[0] != '0'
    decreases n
  {
    if n < 10 then [DigitChar(n)] else NatToDecimal(n / 10) + [DigitChar(n % 10)]
  }

  function IntToDecimal(i: int): (r: string)
    ensures |r| >= 1
  {
    if i < 0 then "-" + NatToDecimal(-i) else NatToDecimal(i)
  }

  /** Value of a string of decimal digits, most significant first. */
  function DecimalValue(s: string): nat
    requires AllDigits(s)
  {
    if |s| == 0 then 0
    else DecimalValue(s[..|s| - 1]) * 10 + (s[|s| - 1] as int - '0' as int)
  }

  /** Reads back an optionally negative decimal integer. */
  function ParseInt(s: string): Option<int>
  {
    if |s| > 1 && s[0] == '-' && AllDigits(s[1..]) then Some(0 - DecimalValue(s[1..]) as int)
    else if |s| > 0 && AllDigits(s) then Some(DecimalValue(s))
    else None
  }

  lemma {:induction false} NatToDecimalRoundTrip(n: nat)
    ensures DecimalValue(NatToDecimal(n)) == n
    decreases n
  {
    if n >= 10 {
      var r := NatToDecimal(n);
      NatToDecimalRoundTrip(n / 10);
      assert r[..|r| - 1] == NatToDecimal(n / 10);
    }
  }

  /** The printed code can always be read back: rendering loses nothing. */
  lemma IntToDecimalRoundTrip(i: int)
    ensures ParseInt(IntToDecimal(i)) == Some(i)
  {
    if i < 0 {
      var d := NatToDecimal(-i);
      assert IntToDecimal(i)[1..] == d;
      NatToDecimalRoundTrip(-i);
    } else {
      NatToDecimalRoundTrip(i);
    }
  }
}
