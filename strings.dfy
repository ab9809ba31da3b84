/** Character classes and the string operations of the Rust standard library and the
    regex crate that the assembler relies on: `char::is_whitespace`, `str::trim`,
    `str::split`, and the `\w`, `\S` and `.` classes of its patterns. */
module Strings {
  import opened Wrappers

  /** `char::is_whitespace`: the Unicode White_Space property. Also the complement of
      the regex class `\S`. */
  predicate IsWhitespace(c: char)
  {
    ('\t' <= c <= '\r') || c == ' ' || c == '\U{0085}' || c == '\U{00A0}' || c == '\U{1680}'
    || ('\U{2000}' <= c <= '\U{200A}') || c == '\U{2028}' || c == '\U{2029}' || c == '\U{202F}'
    || c == '\U{205F}' || c == '\U{3000}'
  }

  /** The regex class `\w`, restricted to its ASCII members. */
  predicate IsWordChar(c: char)
  {
    ('a' <= c <= 'z') || ('A' <= c <= 'Z') || ('0' <= c <= '9') || c == '_'
  }

  predicate WordChars(s: string)
  {
    forall i :: 0 <= i < |s| ==> IsWordChar(s[i])
  }

  predicate NoWhitespace(s: string)
  {
    forall i :: 0 <= i < |s| ==> !IsWhitespace(s[i])
  }

  /** `str::trim_start`. */
  function TrimStart(s: string): (r: string)
    ensures |r| <= |s| && r == s[|s| - |r|..]
    ensures forall i :: 0 <= i < |s| - |r| ==> IsWhitespace(s[i])
    ensures r == [] || !IsWhitespace(r[0])
    decreases |s|
  {
    if s != [] && IsWhitespace(s[0]) then TrimStart(s[1..]) else s
  }

  /** `str::trim_end`. */
  function TrimEnd(s: string): (r: string)
    ensures |r| <= |s| && r == s[..|r|]
    ensures forall i :: |r| <= i < |s| ==> IsWhitespace(s[i])
    ensures r == [] || !IsWhitespace(r[|r| - 1])
    decreases |s|
  {
    if s != [] && IsWhitespace(s[|s| - 1]) then TrimEnd(s[..|s| - 1]) else s
  }

  /** `r` occurs in `s` at index `a`, with only whitespace before and after it. */
  predicate Surrounded(s: string, r: string, a: nat)
  {
    a + |r| <= |s| && r == s[a..a + |r|]
    && (forall i :: 0 <= i < a ==> IsWhitespace(s[i]))
    && (forall i :: a + |r| <= i < |s| ==> IsWhitespace(s[i]))
  }

  /** `str::trim`: `s` without its leading and trailing whitespace. The result is a
      contiguous part of `s` with only whitespace before and after it. */
  function Trim(s: string): (r: string)
    ensures |r| <= |s|
    ensures exists a :: Surrounded(s, r, a)
    ensures r == [] || (!IsWhitespace(r[0]) && !IsWhitespace(r[|r| - 1]))
    ensures NoWhitespace(s) ==> r == s
  {
    var t := TrimStart(s);
    var r := TrimEnd(t);
    var a := |s| - |t|;
    assert Surrounded(s, r, a);
    r
  }

  /** `pat` occurs in `s` starting at index `i`. */
  predicate OccursAt(s: string, pat: string, i: nat)
  {
    i + |pat| <= |s| && s[i..i + |pat|] == pat
  }

  predicate Contains(s: string, pat: string)
  {
    exists i :: 0 <= i <= |s| && OccursAt(s, pat, i)
  }

  /** The first occurrence of `pat` in `s` at or after `from`. */
  function FindFrom(s: string, pat: string, from: nat): (r: Option<nat>)
    ensures r.Some? ==> from <= r.value && OccursAt(s, pat, r.value)
    ensures forall j: nat :: from <= j && (r.None? || j < r.value) ==> !OccursAt(s, pat, j)
    decreases |s| - from
  {
    if from + |pat| > |s| then None
    else if OccursAt(s, pat, from) then Some(from)
    else FindFrom(s, pat, from + 1)
  }

  /** The last occurrence of `pat` in `s` at or before `upto`. */
  function FindLast(s: string, pat: string, upto: nat): (r: Option<nat>)
    ensures r.Some? ==> r.value <= upto && OccursAt(s, pat, r.value)
    ensures forall j: nat :: j <= upto && (r.None? || r.value < j) ==> !OccursAt(s, pat, j)
    decreases upto
  {
    if OccursAt(s, pat, upto) then Some(upto)
    else if upto == 0 then None
    else FindLast(s, pat, upto - 1)
  }

  /** `k` is the last place where `pat` occurs in `s`. */
  predicate IsLastOccurrence(s: string, pat: string, k: nat)
  {
    OccursAt(s, pat, k) && forall j :: k < j <= |s| ==> !OccursAt(s, pat, j)
  }

  /** A search from the end of the string finds the last occurrence, if any. */
  lemma FindLastIsLast(s: string, pat: string)
    ensures FindLast(s, pat, |s|).None? <==> !Contains(s, pat)
    ensures FindLast(s, pat, |s|).Some? ==> IsLastOccurrence(s, pat, FindLast(s, pat, |s|).value)
  {
    var r := FindLast(s, pat, |s|);
    if r.Some? {
      assert OccursAt(s, pat, r.value);
    }
  }

  /** The parts joined back together, with `sep` between neighbours. */
  function Join(parts: seq<string>, sep: string): string
  {
    if |parts| == 0 then ""
    else if |parts| == 1 then parts[0]
    else parts[0] + sep + Join(parts[1..], sep)
  }

  /** Joining one more part appends the separator and that part. */
  lemma {:induction false} JoinSnoc(parts: seq<string>, x: string, sep: string)
    requires |parts| >= 1
    ensures Join(parts + [x], sep) == Join(parts, sep) + sep + x
    decreases |parts|
  {
    if |parts| > 1 {
      assert (parts + [x])[1..] == parts[1..] + [x];
      JoinSnoc(parts[1..], x, sep);
    }
  }

  /** `str::split` with a (non-empty) string pattern: the pieces between the
      non-overlapping occurrences of `sep`, found from left to right. */
  function Split(s: string, sep: string): (r: seq<string>)
    requires |sep| > 0
    ensures |r| >= 1
    ensures Join(r, sep) == s
    ensures forall k :: 0 <= k < |r| ==> !Contains(r[k], sep)
    ensures |r| > 1 <==> Contains(s, sep)
    ensures |r| > 1 ==> OccursAt(s, sep, |r[0]|)
    ensures forall j: nat :: j < |r[0]| ==> !OccursAt(s, sep, j)
    decreases |s|
  {
    match FindFrom(s, sep, 0)
    case None => [s]
    case Some(i) =>
      var rest := Split(s[i + |sep|..], sep);
      PrefixFree(s, sep, i);
      assert s == s[..i] + sep + s[i + |sep|..];
      [s[..i]] + rest
  }

  /** Before the first occurrence of `sep` there is no occurrence of it. */
  lemma PrefixFree(s: string, sep: string, i: nat)
    requires |sep| > 0 && i <= |s|
    requires forall j: nat :: j < i ==> !OccursAt(s, sep, j)
    ensures !Contains(s[..i], sep)
  {
    forall j: nat | OccursAt(s[..i], sep, j) ensures false {
      assert s[..i][j..j + |sep|] == s[j..j + |sep|];
      assert OccursAt(s, sep, j);
    }
  }

  /** A one-character pattern occurs exactly where that character does. */
  lemma ContainsChar(s: string, c: char)
    ensures Contains(s, [c]) <==> c in s
  {
    if c in s {
      var i :| 0 <= i < |s| && s[i] == c;
      assert OccursAt(s, [c], i);
    }
    if Contains(s, [c]) {
      var i :| 0 <= i <= |s| && OccursAt(s, [c], i);
      assert s[i] == s[i..i + 1][0];
    }
  }

  /** Splitting on a character undoes joining on it, when no part contains it. */
  lemma {:induction false} SplitJoin(parts: seq<string>, c: char)
    requires |parts| >= 1
    requires forall k :: 0 <= k < |parts| ==> c !in parts[k]
    ensures Split(Join(parts, [c]), [c]) == parts
    decreases |parts|
  {
    var s := Join(parts, [c]);
    ContainsChar(parts[0], c);
    if |parts| == 1 {
      var r := Split(s, [c]);
      if |r| > 1 {
        ContainsChar(s, c);
      }
    } else {
      var tail := Join(parts[1..], [c]);
      assert s == parts[0] + [c] + tail;
      var p := |parts[0]|;
      assert OccursAt(s, [c], p) by { assert s[p..p + 1] == [c]; }
      forall j: nat | j < p ensures !OccursAt(s, [c], j) {
        assert s[j] == parts[0][j];
      }
      assert FindFrom(s, [c], 0) == Some(p);
      assert s[p + 1..] == tail;
      SplitJoin(parts[1..], c);
      assert s[..p] == parts[0];
    }
  }
}
