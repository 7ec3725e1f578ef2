/** Text primitives shared by both extraction scripts: the character classes the
    regular expressions use, Python's `str.strip`, `str.splitlines`, `str.join`
    and `str.replace` (with the occurrence count that states how `replace`
    changes the length), and the one line pattern both scripts match,
    `^P\s*(.+)$`, with the first-match search over a sequence of lines. */
module Text {

  datatype Option<T> = None | Some(value: T)

  /** Python's `str.isspace()`; the same set is `\s` in a `str` regular expression. */
  predicate IsSpace(c: char) {
    var n := c as int;
    (0x09 <= n <= 0x0D) || (0x1C <= n <= 0x20) || n == 0x85 || n == 0xA0 ||
    n == 0x1680 || (0x2000 <= n <= 0x200A) || n == 0x2028 || n == 0x2029 ||
    n == 0x202F || n == 0x205F || n == 0x3000
  }

  /** `\d`, restricted to the ASCII digits. */
  predicate IsDigit(c: char) {
    '0' <= c <= '9'
  }

  /** The line boundaries of Python's `str.splitlines()` (`\r\n` is handled as a pair). */
  predicate IsLineBreak(c: char) {
    var n := c as int;
    n == 0x0A || n == 0x0B || n == 0x0C || n == 0x0D || n == 0x1C || n == 0x1D ||
    n == 0x1E || n == 0x85 || n == 0x2028 || n == 0x2029
  }

  /** Every line boundary is whitespace, so `strip` removes one left at either
      end of a line. */
  lemma LineBreakIsSpace(c: char)
    requires IsLineBreak(c)
    ensures IsSpace(c)
  {
  }

  /** No digit is whitespace, so `strip` keeps the digits at either end of an amount. */
  lemma DigitNotSpace(c: char)
    requires IsDigit(c)
    ensures !IsSpace(c)
  {
  }

  predicate AllSpace(s: string) {
    forall k :: 0 <= k < |s| ==> IsSpace(s[k])
  }

  predicate AllDigits(s: string) {
    forall k :: 0 <= k < |s| ==> IsDigit(s[k])
  }

  predicate NoLineBreak(s: string) {
    forall k :: 0 <= k < |s| ==> !IsLineBreak(s[k])
  }

  predicate StartsWith(s: string, prefix: string) {
    |prefix| <= |s| && s[..|prefix|] == prefix
  }

  /** Neither end of `s` is whitespace: what `strip` leaves behind. */
  predicate IsStripped(s: string) {
    s == [] || (!IsSpace(s[0]) && !IsSpace(s[|s| - 1]))
  }

  // ---------------------------------------------------------------------------
  // str.strip()

  /** The number of whitespace characters at the start of `s`. */
  function LeadingSpaces(s: string): (n: nat)
    ensures n <= |s| && forall k :: 0 <= k < n ==> IsSpace(s[k])
    ensures n < |s| ==> !IsSpace(s[n])
  {
    if s != [] && IsSpace(s[0]) then
      var n := LeadingSpaces(s[1..]);
      assert forall k :: 1 <= k < n + 1 ==> s[k] == s[1..][k - 1];
      1 + n
    else 0
  }

  /** The number of whitespace characters at the end of `s`. */
  function TrailingSpaces(s: string): (n: nat)
    ensures n <= |s| && forall k :: |s| - n <= k < |s| ==> IsSpace(s[k])
    ensures n < |s| ==> !IsSpace(s[|s| - 1 - n])
  {
    if s != [] && IsSpace(s[|s| - 1]) then
      var n := TrailingSpaces(s[..|s| - 1]);
      assert forall k :: |s| - 1 - n <= k < |s| - 1 ==> s[k] == s[..|s| - 1][k];
      1 + n
    else 0
  }

  /** Every character of `s` outside `s[i..j]` is whitespace. */
  predicate SpaceOutside(s: string, i: int, j: int) {
    forall k :: 0 <= k < |s| && !(i <= k < j) ==> IsSpace(s[k])
  }

  /** Python's `s.strip()`: the middle part of `s` left once the whitespace at
      both ends is removed. */
  function Strip(s: string): (r: string)
    ensures IsStripped(r)
    ensures exists i, j :: 0 <= i <= j <= |s| && r == s[i..j] && SpaceOutside(s, i, j)
  {
    var i := LeadingSpaces(s);
    if i == |s| then
      assert SpaceOutside(s, 0, 0);
      []
    else
      var j := |s| - TrailingSpaces(s);
      assert i < j;
      assert SpaceOutside(s, i, j);
      s[i..j]
  }

  /** `strip` is determined by its two promises: when only whitespace lies
      outside `t[i..j]` and `t[i..j]` neither starts nor ends with whitespace,
      `t[i..j]` is what `strip` returns. */
  lemma StripSpan(t: string, i: int, j: int)
    requires 0 <= i <= j <= |t| && SpaceOutside(t, i, j) && IsStripped(t[i..j])
    ensures Strip(t) == t[i..j]
  {
    var n := LeadingSpaces(t);
    if i < j {
      assert t[i] == t[i..j][0] && t[j - 1] == t[i..j][j - i - 1];
      var m := TrailingSpaces(t);
      assert n <= i by {
        assert !IsSpace(t[i]);
      }
      assert |t| - 1 - m >= j - 1 by {
        assert !IsSpace(t[j - 1]);
      }
      assert n == i;
      assert |t| - m == j;
    } else {
      assert n == |t|;
    }
  }

  /** The characters of `s` sit at offset `|a|` in `a + s + b`. */
  lemma PaddedSlice(a: string, s: string, b: string, i: int, j: int)
    requires 0 <= i <= j <= |s|
    ensures (a + s + b)[|a| + i..|a| + j] == s[i..j]
  {
    var t := a + s + b;
    forall k | 0 <= k < j - i
      ensures t[|a| + i..|a| + j][k] == s[i..j][k]
    {
      assert t[|a| + i + k] == s[i + k];
    }
  }

  /** Whitespace padding keeps a span's outside whitespace. */
  lemma PaddedSpaceOutside(a: string, s: string, b: string, i: int, j: int)
    requires 0 <= i <= j <= |s| && SpaceOutside(s, i, j)
    requires AllSpace(a) && AllSpace(b)
    ensures SpaceOutside(a + s + b, |a| + i, |a| + j)
  {
    var t := a + s + b;
    forall k | 0 <= k < |t| && !(|a| + i <= k < |a| + j)
      ensures IsSpace(t[k])
    {
      if k < |a| {
        assert t[k] == a[k];
      } else if k < |a| + |s| {
        assert t[k] == s[k - |a|];
      } else {
        assert t[k] == b[k - |a| - |s|];
      }
    }
  }

  /** Whitespace added around a string does not change what `strip` returns. */
  lemma StripIgnoresPadding(a: string, s: string, b: string)
    requires AllSpace(a) && AllSpace(b)
    ensures Strip(a + s + b) == Strip(s)
  {
    var i, j := StripBounds(s);
    StripPadded(a, s, b, i, j);
  }

  /** A stripped span with only whitespace around it, padded with more
      whitespace, is still what `strip` returns. */
  lemma StripPadded(a: string, s: string, b: string, i: int, j: int)
    requires 0 <= i <= j <= |s| && SpaceOutside(s, i, j) && IsStripped(s[i..j])
    requires AllSpace(a) && AllSpace(b)
    ensures Strip(a + s + b) == s[i..j]
  {
    var t := a + s + b;
    PaddedSlice(a, s, b, i, j);
    PaddedSpaceOutside(a, s, b, i, j);
    assert IsStripped(t[|a| + i..|a| + j]);
    StripSpan(t, |a| + i, |a| + j);
  }

  /** Where `Strip(s)` lies in `s`. */
  lemma StripBounds(s: string) returns (i: int, j: int)
    ensures 0 <= i <= j <= |s| && SpaceOutside(s, i, j)
    ensures Strip(s) == s[i..j] && IsStripped(s[i..j])
  {
    i, j :| 0 <= i <= j <= |s| && Strip(s) == s[i..j] && SpaceOutside(s, i, j);
  }

  /** A string that starts with non-whitespace loses only its end to `strip`. */
  lemma StripIsPrefix(s: string)
    requires s != [] && !IsSpace(s[0])
    ensures |Strip(s)| <= |s| && Strip(s) == s[..|Strip(s)|]
  {
    var i, j := StripBounds(s);
    if i < j {
      assert i == 0;
    }
  }

  /** `v` without its trailing whitespace, `v[..j]`, strips as `v` does. */
  lemma TrailingOff(v: string) returns (j: nat)
    ensures j <= |v| && AllSpace(v[j..]) && (j > 0 ==> !IsSpace(v[j - 1]))
    ensures Strip(v[..j]) == Strip(v)
  {
    j := |v| - TrailingSpaces(v);
    assert forall k :: 0 <= k < |v| - j ==> v[j..][k] == v[j + k];
    assert [] + v[..j] + v[j..] == v;
    StripIgnoresPadding([], v[..j], v[j..]);
  }

  /** After a prefix `p` with non-whitespace at both ends, `strip` cuts only
      the trailing whitespace of `v`. */
  lemma StripAfterPrefix(p: string, v: string, j: nat)
    requires p != [] && !IsSpace(p[0]) && !IsSpace(p[|p| - 1])
    requires j <= |v| && AllSpace(v[j..]) && (j > 0 ==> !IsSpace(v[j - 1]))
    ensures Strip(p + v) == p + v[..j]
  {
    var s := p + v;
    forall k | 0 <= k < |s| && !(0 <= k < |p| + j)
      ensures IsSpace(s[k])
    {
      assert s[k] == v[j..][k - |p| - j];
    }
    assert s[..|p| + j] == p + v[..j];
    assert s[0] == p[0];
    assert s[|p| + j - 1] == if j > 0 then v[j - 1] else p[|p| - 1];
    assert IsStripped(s[0..|p| + j]);
    StripSpan(s, 0, |p| + j);
  }

  /** Stripping twice is stripping once. */
  lemma StripIdempotent(s: string)
    ensures Strip(Strip(s)) == Strip(s)
  {
    var r := Strip(s);
    assert r[0..|r|] == r;
    StripSpan(r, 0, |r|);
  }

  /** A line without line boundaries keeps none once stripped. */
  lemma StripNoLineBreak(s: string)
    requires NoLineBreak(s)
    ensures NoLineBreak(Strip(s)) && '\n' !in Strip(s)
  {
    var r := Strip(s);
    var i, j :| 0 <= i <= j <= |s| && r == s[i..j] && SpaceOutside(s, i, j);
    assert forall k :: 0 <= k < |r| ==> r[k] == s[i + k];
    assert IsLineBreak('\n');
  }

  /** A string whose last character is not whitespace strips to a non-empty string. */
  lemma StripNonEmpty(s: string)
    requires s != [] && !IsSpace(s[|s| - 1])
    ensures Strip(s) != []
  {
    var r := Strip(s);
    var i, j :| 0 <= i <= j <= |s| && r == s[i..j] && SpaceOutside(s, i, j);
  }

  /** Stripping only removes characters: one absent before is absent after. */
  lemma StripKeepsOut(s: string, c: char)
    requires forall k :: 0 <= k < |s| ==> s[k] != c
    ensures forall k :: 0 <= k < |Strip(s)| ==> Strip(s)[k] != c
  {
    var r := Strip(s);
    var i, j :| 0 <= i <= j <= |s| && r == s[i..j] && SpaceOutside(s, i, j);
    assert forall k :: 0 <= k < |r| ==> r[k] == s[i + k];
  }

  /** A string made only of whitespace strips to the empty string. */
  lemma StripAllSpace(s: string)
    requires AllSpace(s)
    ensures Strip(s) == []
  {
    StripSpan(s, 0, 0);
  }

  // ---------------------------------------------------------------------------
  // str.splitlines() and str.join()

  /** Index of the first line boundary in `s`, or `|s|` when there is none. */
  function FirstBreak(s: string): (k: nat)
    ensures k <= |s| && NoLineBreak(s[..k])
    ensures k < |s| ==> IsLineBreak(s[k])
  {
    if s == [] || IsLineBreak(s[0]) then 0
    else
      var k := FirstBreak(s[1..]);
      assert s[..k + 1] == [s[0]] + s[1..][..k];
      k + 1
  }

  /** Python's `s.splitlines()`: the pieces between line boundaries, where `\r\n`
      counts as one boundary and a boundary at the very end opens no new line. */
  function SplitLines(s: string): (lines: seq<string>)
    ensures forall n :: 0 <= n < |lines| ==> NoLineBreak(lines[n])
    ensures NoNewlines(lines)
    decreases |s|
  {
    if s == [] then []
    else
      var k := FirstBreak(s);
      if k == |s| then [s]
      else
        var next := if s[k] == '\r' && k + 1 < |s| && s[k + 1] == '\n' then k + 2 else k + 1;
        [s[..k]] + SplitLines(s[next..])
  }

  /** The summed length of `parts`. */
  function TotalLength(parts: seq<string>): nat {
    if parts == [] then 0 else |parts[0]| + TotalLength(parts[1..])
  }

  /** `sep.join(parts)`: the parts in order with one `sep` between neighbours,
      so its length is theirs plus one separator fewer than there are parts. */
  function Join(parts: seq<string>, sep: string): (r: string)
    ensures parts != [] ==> |r| == TotalLength(parts) + (|parts| - 1) * |sep|
    ensures parts != [] ==> StartsWith(r, parts[0])
  {
    if |parts| == 0 then ""
    else if |parts| == 1 then parts[0]
    else
      var tail := Join(parts[1..], sep);
      MulSucc(|parts| - 2, |sep|);
      assert (parts[0] + sep + tail)[..|parts[0]|] == parts[0];
      parts[0] + sep + tail
  }

  /** Joining with `"\n"` and splitting again gives back the parts, as long as no
      part holds a line boundary and the last part is not empty (an empty last
      part leaves only a trailing `"\n"`, which `splitlines` does not report). */
  lemma {:induction false} SplitLinesOfJoin(parts: seq<string>)
    requires forall n :: 0 <= n < |parts| ==> NoLineBreak(parts[n])
    requires parts == [] || parts[|parts| - 1] != ""
    ensures SplitLines(Join(parts, "\n")) == parts
  {
    if |parts| == 1 {
      SplitLinesOfLine(parts[0]);
    } else if |parts| > 1 {
      var x, tail := parts[0], parts[1..];
      var rest := Join(tail, "\n");
      assert Join(parts, "\n") == x + "\n" + rest == x + ['\n'] + rest;
      assert forall n :: 0 <= n < |tail| ==> tail[n] == parts[n + 1];
      SplitLinesOfJoin(tail);
      assert IsLineBreak('\n');
      SplitLinesAfterBreak(x, '\n', rest);
      assert [x] + tail == parts;
    }
  }

  /** A text without line boundaries is one line, or none when it is empty. */
  lemma SplitLinesOfLine(x: string)
    requires NoLineBreak(x)
    ensures SplitLines(x) == if x == [] then [] else [x]
  {
    if x != [] {
      FirstBreakAt(x, []);
      assert x + [] == x;
    }
  }

  /** Any single line boundary `c` ends the line before it, except a `\r` that
      a `\n` follows (that pair is one boundary); with nothing after it the
      boundary opens no new line. */
  lemma SplitLinesAfterBreak(x: string, c: char, rest: string)
    requires NoLineBreak(x) && IsLineBreak(c)
    requires !(c == '\r' && rest != [] && rest[0] == '\n')
    ensures SplitLines(x + [c] + rest) == [x] + SplitLines(rest)
  {
    var t := [c] + rest;
    var s := x + t;
    assert s == x + [c] + rest;
    FirstBreakAt(x, t);
    assert s[|x|] == c;
    assert |x| + 1 < |s| ==> s[|x| + 1] == rest[0];
    assert s[|x| + 1..] == rest;
    assert s[..|x|] == x;
  }

  /** `\r\n` is one line boundary. */
  lemma SplitLinesAfterCrLf(x: string, rest: string)
    requires NoLineBreak(x)
    ensures SplitLines(x + "\r\n" + rest) == [x] + SplitLines(rest)
  {
    var t := "\r\n" + rest;
    var s := x + t;
    assert s == x + "\r\n" + rest;
    assert IsLineBreak(t[0]);
    FirstBreakAt(x, t);
    assert s[|x|] == '\r' && s[|x| + 1] == '\n';
    assert s[|x| + 2..] == rest;
    assert s[..|x|] == x;
  }

  lemma {:induction false} FirstBreakAt(x: string, t: string)
    requires NoLineBreak(x) && (t == [] || IsLineBreak(t[0]))
    ensures FirstBreak(x + t) == |x|
  {
    if x != [] {
      assert (x + t)[1..] == x[1..] + t;
      FirstBreakAt(x[1..], t);
    }
  }

  // ---------------------------------------------------------------------------
  // str.replace() and str.count()

  /** `pattern` occurs in `s` starting at index `i`. */
  predicate OccursAt(s: string, pattern: string, i: int) {
    0 <= i && i + |pattern| <= |s| && s[i..i + |pattern|] == pattern
  }

  predicate Occurs(s: string, pattern: string) {
    exists i :: 0 <= i <= |s| && OccursAt(s, pattern, i)
  }

  /** A one-character pattern occurs only where that character is. */
  lemma CharAbsent(s: string, c: char)
    requires forall k :: 0 <= k < |s| ==> s[k] != c
    ensures !Occurs(s, [c])
  {
    forall i | 0 <= i <= |s|
      ensures !OccursAt(s, [c], i)
    {
      if i < |s| {
        assert s[i..i + 1][0] == s[i];
      }
    }
  }

  /** Removing every occurrence of one character leaves none of it. */
  lemma {:induction false} ReplaceDropsChar(s: string, c: char)
    ensures forall k :: 0 <= k < |Replace(s, [c], "")| ==> Replace(s, [c], "")[k] != c
    decreases |s|
  {
    if |s| >= 1 {
      ReplaceDropsChar(s[1..], c);
      if s[..1] != [c] {
        assert s[..1][0] == s[0];
      }
    }
  }

  /** Python's `s.replace(pat, rep)`: one left-to-right pass that replaces every
      non-overlapping occurrence of `pat`; an empty `pat` puts `rep` before every
      character and at the end. */
  function Replace(s: string, pat: string, rep: string): (r: string)
    ensures pat != [] && |rep| <= |pat| ==> |r| <= |s|
    ensures pat != [] && |s| < |pat| ==> r == s
    decreases |s|
  {
    if pat == [] then
      if s == [] then rep else rep + [s[0]] + Replace(s[1..], pat, rep)
    else if |s| < |pat| then s
    else if s[..|pat|] == pat then rep + Replace(s[|pat|..], pat, rep)
    else [s[0]] + Replace(s[1..], pat, rep)
  }

  /** Where no occurrence starts, one character is copied and the scan moves on. */
  lemma ReplaceSkip(s: string, pat: string, rep: string)
    requires pat != [] && s != [] && !OccursAt(s, pat, 0)
    ensures Replace(s, pat, rep) == [s[0]] + Replace(s[1..], pat, rep)
  {
    if |s| < |pat| {
      assert [s[0]] + s[1..] == s;
    }
  }

  /** Characters before the first occurrence are copied as they are. */
  lemma {:induction false} ReplaceCopiesPrefix(a: string, t: string, pat: string, rep: string)
    requires pat != []
    requires forall k :: 0 <= k < |a| ==> !OccursAt(a + t, pat, k)
    ensures Replace(a + t, pat, rep) == a + Replace(t, pat, rep)
    decreases |a|
  {
    if a == [] {
      assert a + t == t;
    } else {
      var s := a + t;
      var s1 := a[1..] + t;
      var r := Replace(t, pat, rep);
      assert s[1..] == s1 && s[0] == a[0];
      NoOccurrenceInTail(s, a[1..], t, pat);
      ReplaceCopiesPrefix(a[1..], t, pat, rep);
      assert Replace(s1, pat, rep) == a[1..] + r;
      assert !OccursAt(s, pat, 0);
      ReplaceSkip(s, pat, rep);
      assert Replace(s, pat, rep) == [a[0]] + (a[1..] + r);
      assert [a[0]] + (a[1..] + r) == ([a[0]] + a[1..]) + r;
      assert [a[0]] + a[1..] == a;
    }
  }

  /** At the first occurrence, `pat` is replaced by `rep` and the scan goes
      on after it. */
  lemma ReplaceAtOccurrence(a: string, pat: string, t: string, rep: string)
    requires pat != []
    requires forall k :: 0 <= k < |a| ==> !OccursAt(a + pat + t, pat, k)
    ensures Replace(a + pat + t, pat, rep) == a + rep + Replace(t, pat, rep)
  {
    assert a + pat + t == a + (pat + t);
    ReplaceCopiesPrefix(a, pat + t, pat, rep);
    assert (pat + t)[..|pat|] == pat && (pat + t)[|pat|..] == t;
  }

  lemma NoOccurrenceInTail(s: string, a1: string, t: string, pat: string)
    requires s != [] && s[1..] == a1 + t
    requires forall k :: 0 <= k < |a1| + 1 ==> !OccursAt(s, pat, k)
    ensures forall k :: 0 <= k < |a1| ==> !OccursAt(a1 + t, pat, k)
  {
    forall k | 0 <= k < |a1|
      ensures !OccursAt(a1 + t, pat, k)
    {
      ShiftOccurrence(s, pat, k);
    }
  }

  /** Removing the only occurrence of `pat` in `a + pat + b`, where no
      occurrence starts inside `a` and `b` is shorter than `pat`, joins `a` and
      `b`. */
  lemma RemovalJoins(a: string, pat: string, b: string)
    requires pat != [] && |b| < |pat|
    requires forall k :: 0 <= k < |a| ==> !OccursAt(a + pat + b, pat, k)
    ensures Replace(a + pat + b, pat, "") == a + b
  {
    var t := pat + b;
    assert a + pat + b == a + t;
    ReplaceCopiesPrefix(a, t, pat, "");
    assert t[..|pat|] == pat && t[|pat|..] == b;
    assert Replace(t, pat, "") == Replace(b, pat, "") == b;
  }

  /** Python's `s.count(sub)`: the number of non-overlapping occurrences found
      scanning left to right (`|s| + 1` for the empty string). */
  function Count(s: string, sub: string): (n: nat)
    ensures sub != [] ==> n * |sub| <= |s|
    decreases |s|
  {
    if sub == [] then |s| + 1
    else if |s| < |sub| then 0
    else if s[..|sub|] == sub then
      MulSucc(Count(s[|sub|..], sub), |sub|);
      1 + Count(s[|sub|..], sub)
    else Count(s[1..], sub)
  }

  /** Each replaced occurrence changes the length by `|rep| - |pat|`. */
  lemma {:induction false} ReplaceLength(s: string, pat: string, rep: string)
    ensures |Replace(s, pat, rep)| == |s| + Count(s, pat) * (|rep| - |pat|)
    decreases |s|
  {
    var d := |rep| - |pat|;
    if pat == [] {
      if s != [] {
        ReplaceLength(s[1..], pat, rep);
        var c := Count(s[1..], pat);
        assert |Replace(s, pat, rep)| == |rep| + 1 + |Replace(s[1..], pat, rep)|;
        assert Count(s, pat) == c + 1;
        MulSucc(c, d);
      }
    } else if |s| < |pat| {
    } else if s[..|pat|] == pat {
      ReplaceLength(s[|pat|..], pat, rep);
      var c := Count(s[|pat|..], pat);
      assert |Replace(s, pat, rep)| == |rep| + |Replace(s[|pat|..], pat, rep)|;
      assert Count(s, pat) == c + 1;
      MulSucc(c, d);
    } else {
      ReplaceLength(s[1..], pat, rep);
      assert |Replace(s, pat, rep)| == 1 + |Replace(s[1..], pat, rep)|;
    }
  }

  lemma MulSucc(c: int, d: int)
    ensures (c + 1) * d == c * d + d
  {
  }

  /** `count` finds nothing exactly when a non-empty pattern does not occur. */
  lemma {:induction false} CountZeroIffAbsent(s: string, sub: string)
    requires sub != []
    ensures Count(s, sub) == 0 <==> !Occurs(s, sub)
    decreases |s|
  {
    if |s| < |sub| {
    } else if s[..|sub|] == sub {
      assert OccursAt(s, sub, 0);
    } else {
      CountZeroIffAbsent(s[1..], sub);
      OccursInTail(s, sub);
    }
  }

  /** Past a first character where the pattern does not start, occurrences in
      `s` and in its tail are the same. */
  lemma OccursInTail(s: string, sub: string)
    requires s != [] && !OccursAt(s, sub, 0)
    ensures Occurs(s, sub) <==> Occurs(s[1..], sub)
  {
    if Occurs(s, sub) {
      var i :| 0 <= i <= |s| && OccursAt(s, sub, i);
      ShiftOccurrence(s, sub, i - 1);
    }
    if Occurs(s[1..], sub) {
      var i :| 0 <= i <= |s| - 1 && OccursAt(s[1..], sub, i);
      ShiftOccurrence(s, sub, i);
    }
  }

  lemma ShiftOccurrence(s: string, sub: string, i: int)
    requires s != [] && 0 <= i
    ensures OccursAt(s, sub, i + 1) <==> OccursAt(s[1..], sub, i)
  {
    if i + 1 + |sub| <= |s| {
      assert s[1..][i..i + |sub|] == s[i + 1..i + 1 + |sub|];
    }
  }

  /** When the pattern does not occur, `replace` returns its input unchanged. */
  lemma ReplaceAbsent(s: string, pat: string, rep: string)
    requires pat != [] && !Occurs(s, pat)
    ensures Replace(s, pat, rep) == s
  {
    CountZeroIffAbsent(s, pat);
    ReplaceCountZero(s, pat, rep);
  }

  lemma {:induction false} ReplaceCountZero(s: string, pat: string, rep: string)
    requires pat != [] && Count(s, pat) == 0
    ensures Replace(s, pat, rep) == s
    decreases |s|
  {
    if |s| >= |pat| {
      ReplaceCountZero(s[1..], pat, rep);
      assert [s[0]] + s[1..] == s;
    }
  }

  /** Replacing a pattern with itself changes nothing. */
  lemma {:induction false} ReplaceWithItself(s: string, pat: string)
    ensures Replace(s, pat, pat) == s
    decreases |s|
  {
    if pat == [] {
      if s != [] {
        ReplaceWithItself(s[1..], pat);
        assert [s[0]] + s[1..] == s;
      }
    } else if |s| < |pat| {
    } else if s[..|pat|] == pat {
      ReplaceWithItself(s[|pat|..], pat);
      assert s[..|pat|] + s[|pat|..] == s;
    } else {
      ReplaceWithItself(s[1..], pat);
      assert [s[0]] + s[1..] == s;
    }
  }

  // ---------------------------------------------------------------------------
  // The line pattern `^P\s*(.+)$` and the first-match search

  /** `re.match('^' + P + r'\s*(.+)$', line)` succeeds: on a line without a line
      break, `.+` needs at least one character after the literal prefix `P`. */
  predicate LineMatches(line: string, prefix: string) {
    StartsWith(line, prefix) && |line| > |prefix|
  }

  /** Group 1 of the pattern on the text after the prefix: greedy `\s*` takes the
      leading whitespace but backtracks to leave `.+` at least one character. */
  function CapturedGroup(rest: string): (g: string)
    requires rest != []
    ensures g != [] && |g| <= |rest| && g == rest[|rest| - |g|..]
    ensures AllSpace(rest[..|rest| - |g|])
    ensures !IsSpace(g[0]) || (|g| == 1 && AllSpace(rest))
  {
    var n := LeadingSpaces(rest);
    rest[if n < |rest| then n else |rest| - 1..]
  }

  /** `match.group(1).strip()`, or `None` when the line does not match. */
  function MatchLine(line: string, prefix: string): (r: Option<string>)
    requires '\n' !in line
    ensures r.Some? <==> LineMatches(line, prefix)
    ensures r.Some? ==> r.value == Strip(line[|prefix|..])
  {
    if LineMatches(line, prefix) then
      var rest := line[|prefix|..];
      var g := CapturedGroup(rest);
      var n := |rest| - |g|;
      assert rest == rest[..n] + g + [];
      StripIgnoresPadding(rest[..n], g, []);
      Some(Strip(g))
    else None
  }

  predicate NoNewlines(lines: seq<string>) {
    forall n :: 0 <= n < |lines| ==> '\n' !in lines[n]
  }

  /** The value of the first line of `lines` that matches `^P\s*(.+)$`: it exists
      exactly when some line matches, no line before it matches, and it is that
      line's remainder after the prefix, stripped. */
  function FirstMatch(lines: seq<string>, prefix: string): (r: Option<string>)
    requires NoNewlines(lines)
    ensures r.None? <==> forall n :: 0 <= n < |lines| ==> !LineMatches(lines[n], prefix)
    ensures r.Some? ==>
      exists n ::
        && 0 <= n < |lines| && LineMatches(lines[n], prefix)
        && (forall m :: 0 <= m < n ==> !LineMatches(lines[m], prefix))
        && r.value == Strip(lines[n][|prefix|..])
  {
    if lines == [] then None
    else
      var m := MatchLine(lines[0], prefix);
      if m.Some? then m
      else
        var r := FirstMatch(lines[1..], prefix);
        assert forall n :: 0 < n < |lines| ==> lines[n] == lines[1..][n - 1];
        r
  }

  /** The first matching line decides: if line `n` matches and none before it
      does, the search returns line `n`'s value, whatever the later lines hold. */
  lemma {:induction false} FirstMatchAt(lines: seq<string>, prefix: string, n: nat)
    requires NoNewlines(lines) && n < |lines|
    requires LineMatches(lines[n], prefix)
    requires forall m :: 0 <= m < n ==> !LineMatches(lines[m], prefix)
    ensures FirstMatch(lines, prefix) == Some(Strip(lines[n][|prefix|..]))
  {
    if n > 0 {
      assert !LineMatches(lines[0], prefix);
      assert lines[1..][n - 1] == lines[n];
      FirstMatchAt(lines[1..], prefix, n - 1);
    }
  }

  /** One step of the search: from line `i` on, the result is line `i`'s value
      when it matches and the result from line `i + 1` on otherwise. */
  lemma FirstMatchStep(lines: seq<string>, prefix: string, i: nat)
    requires NoNewlines(lines) && i < |lines|
    ensures NoNewlines(lines[i..]) && NoNewlines(lines[i + 1..])
    ensures FirstMatch(lines[i..], prefix)
         == if LineMatches(lines[i], prefix) then MatchLine(lines[i], prefix) else FirstMatch(lines[i + 1..], prefix)
  {
    assert lines[i..][0] == lines[i] && lines[i..][1..] == lines[i + 1..];
  }

  predicate AllStripped(lines: seq<string>) {
    forall n :: 0 <= n < |lines| ==> IsStripped(lines[n])
  }

  /** On lines that are already stripped a match always has a value: the line
      ends in a non-space character, and that character is in the remainder. */
  lemma FirstMatchOfStripped(lines: seq<string>, prefix: string)
    requires NoNewlines(lines) && AllStripped(lines)
    ensures FirstMatch(lines, prefix).Some? ==> FirstMatch(lines, prefix).value != []
  {
    var r := FirstMatch(lines, prefix);
    if r.Some? {
      var n :| 0 <= n < |lines| && LineMatches(lines[n], prefix) && r.value == Strip(lines[n][|prefix|..]);
      RemainderOfStrippedLine(lines[n], prefix);
    }
  }

  lemma RemainderOfStrippedLine(line: string, prefix: string)
    requires IsStripped(line) && LineMatches(line, prefix)
    ensures Strip(line[|prefix|..]) != []
  {
    var rest := line[|prefix|..];
    assert rest[|rest| - 1] == line[|line| - 1];
    StripNonEmpty(rest);
  }

  /** Lines after a match are never looked at. */
  lemma FirstMatchIgnoresLater(lines: seq<string>, later: seq<string>, prefix: string)
    requires NoNewlines(lines) && NoNewlines(later)
    requires FirstMatch(lines, prefix).Some?
    ensures NoNewlines(lines + later)
    ensures FirstMatch(lines + later, prefix) == FirstMatch(lines, prefix)
  {
    var r := FirstMatch(lines, prefix);
    var n :| 0 <= n < |lines| && LineMatches(lines[n], prefix) &&
      (forall m :: 0 <= m < n ==> !LineMatches(lines[m], prefix)) &&
      r.value == Strip(lines[n][|prefix|..]);
    assert forall m :: 0 <= m < |lines| ==> (lines + later)[m] == lines[m];
    FirstMatchAt(lines + later, prefix, n);
  }
}
