/** The text logic of word_only/parse_quote.py: labelled values and the pound
    amount read from a quote document's text, the amount spelled out, and the
    short date. Loading the document, rendering the template and converting it
    to PDF are not part of this model; the document's text is a parameter. */
module ParseQuote {
  import opened Text

  // ---------------------------------------------------------------------------
  // parse_label

  function StripAll(lines: seq<string>): (r: seq<string>)
    ensures |r| == |lines| && forall n :: 0 <= n < |lines| ==> r[n] == Strip(lines[n])
  {
    seq(|lines|, n requires 0 <= n < |lines| => Strip(lines[n]))
  }

  /** The lines `parse_label` matches against: each line of the text, stripped. */
  function StrippedLines(fullText: string): (lines: seq<string>)
    ensures |lines| == |SplitLines(fullText)|
    ensures forall n :: 0 <= n < |lines| ==> lines[n] == Strip(SplitLines(fullText)[n])
    ensures NoNewlines(lines) && AllStripped(lines)
  {
    var raw := SplitLines(fullText);
    forall n | 0 <= n < |raw| ensures '\n' !in Strip(raw[n]) {
      StripNoLineBreak(raw[n]);
    }
    StripAll(raw)
  }

  /** What `parse_label(full_text, label)` returns. The pattern is
      `^{label}:\s*(.+)$`: a colon is appended to the label, so a stripped line
      must start with `label + ":"` and go on for at least one more character.
      The value is then never empty and never starts or ends with whitespace. */
  function LabelValue(fullText: string, fieldLabel: string): (found: string)
    ensures found == [] <==> forall n :: 0 <= n < |StrippedLines(fullText)| ==> !LineMatches(StrippedLines(fullText)[n], fieldLabel + ":")
    ensures IsStripped(found)
  {
    var lines := StrippedLines(fullText);
    FirstMatchOfStripped(lines, fieldLabel + ":");
    match FirstMatch(lines, fieldLabel + ":")
    case None => []
    case Some(v) => v
  }

  /** `parse_label`: scans the lines in order and returns at the first match. */
  method ParseLabel(fullText: string, fieldLabel: string) returns (found: string)
    ensures found == LabelValue(fullText, fieldLabel)
  {
    var raw := SplitLines(fullText);
    var pattern := fieldLabel + ":";
    ghost var lines := StrippedLines(fullText);
    assert lines[0..] == lines;
    var i := 0;
    while i < |raw|
      invariant 0 <= i <= |raw|
      invariant NoNewlines(lines[i..])
      invariant FirstMatch(lines[i..], pattern) == FirstMatch(lines, pattern)
    {
      var line := Strip(raw[i]);
      assert line == lines[i];
      FirstMatchStep(lines, pattern, i);
      if LineMatches(line, pattern) {
        var m := MatchLine(line, pattern);
        return m.value;
      }
      i := i + 1;
    }
    assert lines[i..] == [];
    return [];
  }

  /** Only the first matching line counts: once line `n` is the first to match,
      the value is that line's remainder, stripped, whatever follows. */
  lemma LabelValueFirstMatch(fullText: string, fieldLabel: string, n: nat)
    requires n < |SplitLines(fullText)|
    requires LineMatches(Strip(SplitLines(fullText)[n]), fieldLabel + ":")
    requires forall m :: 0 <= m < n ==> !LineMatches(Strip(SplitLines(fullText)[m]), fieldLabel + ":")
    ensures LabelValue(fullText, fieldLabel) == Strip(Strip(SplitLines(fullText)[n])[|fieldLabel| + 1..])
  {
    FirstMatchAt(StrippedLines(fullText), fieldLabel + ":", n);
  }

  /** Whitespace around a line does not change whether or how it matches, since
      `parse_label` strips each line first. */
  lemma LabelLineIgnoresPadding(a: string, line: string, b: string, fieldLabel: string)
    requires AllSpace(a) && AllSpace(b) && NoLineBreak(line)
    ensures '\n' !in Strip(line) && Strip(a + line + b) == Strip(line)
    ensures MatchLine(Strip(a + line + b), fieldLabel + ":") == MatchLine(Strip(line), fieldLabel + ":")
  {
    StripNoLineBreak(line);
    StripIgnoresPadding(a, line, b);
  }

  /** A text that is a single stripped line yields that line's remainder after
      `label + ":"`, stripped, when the line starts with it, and `""` otherwise. */
  lemma LabelValueOfOneLine(line: string, fieldLabel: string)
    requires NoLineBreak(line) && IsStripped(line) && line != []
    ensures LabelValue(line, fieldLabel) ==
      if LineMatches(line, fieldLabel + ":") then Strip(line[|fieldLabel| + 1..]) else ""
  {
    SplitLinesOfJoin([line]);
    assert SplitLines(line) == [line];
    assert line[0..|line|] == line;
    StripSpan(line, 0, |line|);
    if LineMatches(line, fieldLabel + ":") {
      LabelValueFirstMatch(line, fieldLabel, 0);
    }
  }

  /** A text that is one line, stripped or not, yields the stripped line's
      remainder after `label + ":"`, stripped, when the stripped line starts
      with it and goes on, and `""` otherwise. */
  lemma LabelValueOfAnyLine(line: string, fieldLabel: string)
    requires NoLineBreak(line)
    ensures var t := Strip(line);
      LabelValue(line, fieldLabel) ==
        if LineMatches(t, fieldLabel + ":") then Strip(t[|fieldLabel| + 1..]) else ""
  {
    SplitLinesOfLine(line);
    if line == [] {
      StripAllSpace(line);
    } else if LineMatches(Strip(line), fieldLabel + ":") {
      LabelValueFirstMatch(line, fieldLabel, 0);
    }
  }

  /** A text that is one line `label:` followed by `v` yields `v`, stripped,
      whatever whitespace surrounds `v`; a `v` of only whitespace yields `""`. */
  lemma LabelValueOfLabelLine(fieldLabel: string, v: string)
    requires fieldLabel != [] && !IsSpace(fieldLabel[0]) && NoLineBreak(fieldLabel + ":" + v)
    ensures LabelValue(fieldLabel + ":" + v, fieldLabel) == Strip(v)
  {
    var p := fieldLabel + ":";
    var j := TrailingOff(v);
    assert p[0] == fieldLabel[0] && p[|p| - 1] == ':';
    StripAfterPrefix(p, v, j);
    LabelValueOfAnyLine(p + v, fieldLabel);
    var t := p + v[..j];
    assert t[..|p|] == p && t[|p|..] == v[..j];
  }

  /** The call sites pass labels that already end in a colon, so the pattern
      asks for two: a one-line text `label` + `v` is never found when `v` does
      not start with a second colon, whatever whitespace follows. */
  lemma CallSiteLabelMissesSingleColon(fieldLabel: string, v: string)
    requires fieldLabel != [] && !IsSpace(fieldLabel[0]) && NoLineBreak(fieldLabel + v)
    requires v != [] && v[0] != ':'
    ensures LabelValue(fieldLabel + v, fieldLabel) == ""
  {
    var line := fieldLabel + v;
    assert line[0] == fieldLabel[0];
    StripIsPrefix(line);
    PrefixMissesColon(Strip(line), fieldLabel, v);
    LabelValueOfAnyLine(line, fieldLabel);
  }

  /** A prefix of `label` + `v`, where `v` does not start with a colon, does
      not start with `label + ":"`. */
  lemma PrefixMissesColon(t: string, fieldLabel: string, v: string)
    requires v != [] && v[0] != ':'
    requires |t| <= |fieldLabel + v| && t == (fieldLabel + v)[..|t|]
    ensures !LineMatches(t, fieldLabel + ":")
  {
    if |t| > |fieldLabel| {
      assert t[|fieldLabel|] == (fieldLabel + v)[|fieldLabel|] == v[0];
      assert (fieldLabel + ":")[|fieldLabel|] == ':';
      assert t[..|fieldLabel| + 1][|fieldLabel|] == t[|fieldLabel|];
    }
  }

  // The example lemmas take their literals as parameters fixed by `requires`:
  // a literal in the `ensures` itself makes the solver's work much larger.
  /** The document line `Quote Ref: AB_123` is not found with the label the
      call site passes. */
  lemma CallSiteMissesQuoteRef(line: string, fieldLabel: string)
    requires line == "Quote Ref: AB_123" && fieldLabel == "Quote Ref:"
    ensures LabelValue(line, fieldLabel) == ""
  {
    assert line[..11][10] == ' ';
    assert !LineMatches(line, fieldLabel + ":");
    assert NoLineBreak(line) && IsStripped(line) && line != [];
    LabelValueOfOneLine(line, fieldLabel);
  }

  /** With the colon left to the pattern, the same line is found. */
  lemma CorrectedLabelFindsQuoteRef(fieldLabel: string, v: string)
    requires fieldLabel == "Quote Ref" && v == " AB_123"
    ensures LabelValue(fieldLabel + ":" + v, fieldLabel) == "AB_123"
  {
    assert v[1..7] == "AB_123";
    StripSpan(v, 1, 7);
    var line := fieldLabel + ":" + v;
    assert forall k :: 0 <= k < |line| ==> !IsLineBreak(line[k]);
    assert !IsSpace(fieldLabel[0]);
    LabelValueOfLabelLine(fieldLabel, v);
  }

  // ---------------------------------------------------------------------------
  // parse_amount

  /** A match of `£\d+(\.\d+)?` can start at index `i`. */
  predicate AmountStartsAt(s: string, i: int) {
    0 <= i && i + 1 < |s| && s[i] == '£' && IsDigit(s[i + 1])
  }

  /** `x` matches `£\d+(\.\d+)?` as a whole. */
  predicate IsAmount(x: string) {
    |x| >= 2 && x[0] == '£' &&
    (AllDigits(x[1..]) ||
     exists k :: 2 <= k < |x| - 1 && AllDigits(x[1..k]) && x[k] == '.' && AllDigits(x[k + 1..]))
  }

  /** The leftmost index at or after `from` where an amount can start. */
  function FindAmountStart(s: string, from: nat): (r: Option<nat>)
    requires from <= |s|
    ensures r.None? ==> forall i :: from <= i < |s| ==> !AmountStartsAt(s, i)
    ensures r.Some? ==>
      && from <= r.value && AmountStartsAt(s, r.value)
      && forall i :: from <= i < r.value ==> !AmountStartsAt(s, i)
    decreases |s| - from
  {
    if from + 1 >= |s| then None
    else if AmountStartsAt(s, from) then Some(from)
    else FindAmountStart(s, from + 1)
  }

  /** The end of the run of digits that starts at `k`. */
  function DigitsEnd(s: string, k: nat): (e: nat)
    requires k <= |s|
    ensures k <= e <= |s| && (forall m :: k <= m < e ==> IsDigit(s[m]))
    ensures e < |s| ==> !IsDigit(s[e])
    decreases |s| - k
  {
    if k < |s| && IsDigit(s[k]) then DigitsEnd(s, k + 1) else k
  }

  /** Where the greedy match that starts at `i` ends: the whole digit run, then
      `.` and the following digit run if a digit follows the `.`. */
  function AmountEnd(s: string, i: nat): (e: nat)
    requires AmountStartsAt(s, i)
    ensures i + 2 <= e <= |s|
  {
    var d := DigitsEnd(s, i + 1);
    if d + 1 < |s| && s[d] == '.' && IsDigit(s[d + 1]) then DigitsEnd(s, d + 1) else d
  }

  /** `parse_amount`: the first match of `£\d+(\.\d+)?` in the text, or `""`. */
  function ParseAmount(fullText: string): (amount: string)
    ensures amount != [] ==> IsAmount(amount)
  {
    match FindAmountStart(fullText, 0)
    case None => []
    case Some(i) =>
      AmountEndMatches(fullText, i);
      fullText[i..AmountEnd(fullText, i)]
  }

  /** A match that starts at `i` needs `£` and a digit there. */
  lemma AmountNeedsStart(s: string, i: int, e: int)
    requires 0 <= i <= e <= |s| && IsAmount(s[i..e])
    ensures AmountStartsAt(s, i)
  {
    assert s[i..e][0] == s[i] && s[i..e][1] == s[i + 1];
    if !AllDigits(s[i..e][1..]) {
      var k :| 2 <= k < e - i - 1 && AllDigits(s[i..e][1..k]);
      assert s[i..e][1..k][0] == s[i + 1];
    } else {
      assert s[i..e][1..][0] == s[i + 1];
    }
  }

  /** A slice is all digits exactly when each of its positions in `s` is a digit. */
  lemma DigitsIn(s: string, a: int, b: int)
    requires 0 <= a <= b <= |s|
    ensures AllDigits(s[a..b]) <==> forall m :: a <= m < b ==> IsDigit(s[m])
  {
    assert forall k :: 0 <= k < b - a ==> s[a..b][k] == s[a + k];
  }

  /** A run of digits from `k` to `e` ends no later than `DigitsEnd(s, k)`. */
  lemma DigitsEndBound(s: string, k: nat, e: int)
    requires k <= e <= |s| && forall m :: k <= m < e ==> IsDigit(s[m])
    ensures e <= DigitsEnd(s, k)
  {
  }

  /** The greedy match at `i` is a match. */
  lemma AmountEndMatches(s: string, i: nat)
    requires AmountStartsAt(s, i)
    ensures IsAmount(s[i..AmountEnd(s, i)])
  {
    var d := DigitsEnd(s, i + 1);
    var end := AmountEnd(s, i);
    var x := s[i..end];
    assert x[0] == '£';
    if d + 1 < |s| && s[d] == '.' && IsDigit(s[d + 1]) {
      var k := d - i;
      assert x[1..k] == s[i + 1..d] && x[k + 1..] == s[d + 1..end] && x[k] == s[d];
      DigitsIn(s, i + 1, d);
      DigitsIn(s, d + 1, end);
    } else {
      assert x[1..] == s[i + 1..d];
      DigitsIn(s, i + 1, d);
    }
  }

  /** No match that starts at `i` goes past the greedy one. */
  lemma AmountEndBound(s: string, i: nat, e: int)
    requires AmountStartsAt(s, i) && i <= e <= |s| && IsAmount(s[i..e])
    ensures e <= AmountEnd(s, i)
  {
    var y := s[i..e];
    if AllDigits(y[1..]) {
      assert y[1..] == s[i + 1..e];
      DigitsIn(s, i + 1, e);
      DigitsEndBound(s, i + 1, e);
    } else {
      var k :| 2 <= k < |y| - 1 && AllDigits(y[1..k]) && y[k] == '.' && AllDigits(y[k + 1..]);
      SliceOfSlice(s, i, e, 1, k);
      SliceOfSlice(s, i, e, k + 1, e - i);
      assert y[k + 1..] == y[k + 1..e - i];
      DecimalMatchBound(s, i, e, k);
    }
  }

  /** A slice of a slice is a slice. */
  lemma SliceOfSlice(s: string, a: int, b: int, c: int, d: int)
    requires 0 <= a <= b <= |s| && 0 <= c <= d <= b - a
    ensures s[a..b][c..d] == s[a + c..a + d]
  {
    assert forall m :: 0 <= m < d - c ==> s[a..b][c..d][m] == s[a + c + m];
  }

  /** A match with a fraction, its `.` at `i + k`: the greedy integer part stops
      at that `.`, and the greedy fraction runs at least as far. */
  lemma DecimalMatchBound(s: string, i: nat, e: int, k: int)
    requires AmountStartsAt(s, i) && i <= e <= |s| && 2 <= k < e - i - 1
    requires AllDigits(s[i + 1..i + k]) && s[i + k] == '.' && AllDigits(s[i + k + 1..e])
    ensures e <= AmountEnd(s, i)
  {
    DigitsIn(s, i + 1, i + k);
    DigitsIn(s, i + k + 1, e);
    var d := DigitsEnd(s, i + 1);
    DigitsEndBound(s, i + 1, i + k);
    assert d == i + k;
    DigitsEndBound(s, d + 1, e);
  }

  /** The greedy match at `i` is a match, and no match that starts at `i` is longer. */
  lemma AmountEndIsLongest(s: string, i: nat)
    requires AmountStartsAt(s, i)
    ensures IsAmount(s[i..AmountEnd(s, i)])
    ensures forall e :: i <= e <= |s| && IsAmount(s[i..e]) ==> e <= AmountEnd(s, i)
  {
    AmountEndMatches(s, i);
    forall e | i <= e <= |s| && IsAmount(s[i..e]) ensures e <= AmountEnd(s, i) {
      AmountEndBound(s, i, e);
    }
  }

  /** `parse_amount` returns `""` exactly when nothing in the text matches;
      otherwise it returns a substring of the text that matches the pattern,
      starts at the leftmost index where any match starts, and is the longest
      match there (which is what the greedy `\d+` and `(\.\d+)?` choose). */
  lemma ParseAmountIsLeftmostLongest(s: string)
    ensures ParseAmount(s) == [] <==> forall i, e :: 0 <= i <= e <= |s| ==> !IsAmount(s[i..e])
    ensures ParseAmount(s) != [] ==> exists i, j ::
      && 0 <= i <= j <= |s|
      && ParseAmount(s) == s[i..j]
      && IsAmount(s[i..j])
      && (forall i', e :: 0 <= i' < i && i' <= e <= |s| ==> !IsAmount(s[i'..e]))
      && (forall e :: i <= e <= |s| && IsAmount(s[i..e]) ==> e <= j)
  {
    forall i', e | 0 <= i' <= e <= |s| && IsAmount(s[i'..e]) ensures AmountStartsAt(s, i') {
      AmountNeedsStart(s, i', e);
    }
    match FindAmountStart(s, 0)
    case None =>
    case Some(i) =>
      AmountEndIsLongest(s, i);
      var j := AmountEnd(s, i);
      assert ParseAmount(s) == s[i..j] != [];
      assert forall i', e :: 0 <= i' < i && i' <= e <= |s| ==> !IsAmount(s[i'..e]);
  }

  /** A whole match is found again in full. */
  lemma ParseAmountOfAmount(x: string)
    requires IsAmount(x)
    ensures ParseAmount(x) == x
  {
    assert x[0..|x|] == x;
    AmountNeedsStart(x, 0, |x|);
    AmountEndIsLongest(x, 0);
  }

  /** `parse_amount` applied to its own result returns that result. */
  lemma ParseAmountIdempotent(s: string)
    ensures ParseAmount(ParseAmount(s)) == ParseAmount(s)
  {
    ParseAmountIsLeftmostLongest(s);
    if ParseAmount(s) != [] {
      ParseAmountOfAmount(ParseAmount(s));
    }
  }

  /** A `.` that no digit follows is not part of the amount. */
  lemma ParseAmountTrailingDot(s: string)
    requires s == "£400."
    ensures ParseAmount(s) == "£400"
  {
    assert |s| == 5 && s[0] == '£' && s[1] == '4' && s[2] == '0' && s[3] == '0' && s[4] == '.';
    assert AmountStartsAt(s, 0);
    assert DigitsEnd(s, 1) == 4;
  }

  /** `£.5` is no match, so the search moves on to the next `£`. */
  lemma ParseAmountSkipsBareDot(t: string)
    requires t == "£.5 or £750.00"
    ensures ParseAmount(t) == "£750.00"
  {
    assert |t| == 14 && t[0] == '£' && t[1] == '.' && t[7] == '£' && t[8] == '7';
    assert t[9] == '5' && t[10] == '0' && t[11] == '.' && t[12] == '0' && t[13] == '0';
    assert forall i :: 1 <= i < 7 ==> t[i] != '£';
    assert forall i :: 0 <= i < 7 ==> !AmountStartsAt(t, i);
    assert AmountStartsAt(t, 7);
    assert FindAmountStart(t, 0) == Some(7);
    assert DigitsEnd(t, 8) == 11;
    assert DigitsEnd(t, 12) == 14;
  }

  // ---------------------------------------------------------------------------
  // convert_amount_to_words

  /** `amount_str.replace("£", "").strip()`: the text handed to `float`, with
      every `£` gone and no whitespace at either end. */
  function NumericPart(amountStr: string): (numeric: string)
    ensures IsStripped(numeric)
    ensures forall k :: 0 <= k < |numeric| ==> numeric[k] != '£'
  {
    ReplaceDropsChar(amountStr, '£');
    StripKeepsOut(Replace(amountStr, "£", ""), '£');
    Strip(Replace(amountStr, "£", ""))
  }

  /** `convert_amount_to_words`; `spell` stands for `num2words(float(...),
      to='currency', currency='GBP')`. A string that does not start with `£` is
      returned as it is; otherwise the spelled-out text is followed by the
      original amount in parentheses. */
  function ConvertAmountToWords(amountStr: string, spell: string -> string): (r: string)
    ensures !StartsWith(amountStr, "£") ==> r == amountStr
    ensures StartsWith(amountStr, "£") ==>
      |r| >= |amountStr| + 3 && r[|r| - |amountStr| - 3..] == " (" + amountStr + ")"
  {
    if !StartsWith(amountStr, "£") then amountStr
    else
      var spelled := spell(NumericPart(amountStr));
      var suffix := " (" + amountStr + ")";
      assert (spelled + suffix)[|spelled|..] == suffix;
      spelled + suffix
  }

  /** `\d+(\.\d+)?`: a string `float` accepts. */
  predicate IsDecimal(x: string) {
    x != [] && (AllDigits(x) ||
      exists k :: 1 <= k < |x| - 1 && AllDigits(x[..k]) && x[k] == '.' && AllDigits(x[k + 1..]))
  }

  /** On what `parse_amount` finds, the number handed to `float` is the amount
      without its `£`, a plain decimal, so the conversion cannot fail there. */
  lemma NumericPartOfAmount(x: string)
    requires IsAmount(x)
    ensures NumericPart(x) == x[1..] && IsDecimal(x[1..])
  {
    var t := x[1..];
    AmountTail(x);
    CharAbsent(t, '£');
    ReplaceAbsent(t, "£", "");
    assert x[..1] == "£" && x[1..] == t;
    assert Replace(x, "£", "") == Replace(t, "£", "");
    assert t[0..|t|] == t;
    assert t[0] == x[1] && t[|t| - 1] == x[|x| - 1];
    DigitNotSpace(t[0]);
    DigitNotSpace(t[|t| - 1]);
    assert IsStripped(t[0..|t|]);
    StripSpan(t, 0, |t|);
  }

  /** After its `£`, a match holds a decimal number: digits at both ends, only
      digits and `.` between. */
  lemma AmountTail(x: string)
    requires IsAmount(x)
    ensures IsDecimal(x[1..]) && IsDigit(x[1]) && IsDigit(x[|x| - 1])
    ensures forall k :: 0 <= k < |x[1..]| ==> x[1..][k] != '£'
  {
    var t := x[1..];
    if AllDigits(t) {
      assert t[0] == x[1] && t[|t| - 1] == x[|x| - 1];
    } else {
      var k :| 2 <= k < |x| - 1 && AllDigits(x[1..k]) && x[k] == '.' && AllDigits(x[k + 1..]);
      assert t[..k - 1] == x[1..k] && t[k - 1] == '.' && t[k..] == x[k + 1..];
      assert x[1] == x[1..k][0] && x[|x| - 1] == x[k + 1..][|x| - k - 2];
      forall m | 0 <= m < |t| ensures t[m] != '£' {
        if m < k - 1 {
          assert t[m] == x[1..k][m];
        } else if m > k - 1 {
          assert t[m] == x[k + 1..][m - k];
        }
      }
    }
  }

  /** The amount found in a text, spelled out: the words for its number, then
      the amount itself in parentheses. */
  lemma ConvertParsedAmount(fullText: string, spell: string -> string)
    requires ParseAmount(fullText) != []
    ensures var x := ParseAmount(fullText);
      IsDecimal(x[1..]) && ConvertAmountToWords(x, spell) == spell(x[1..]) + (" (" + x + ")")
  {
    ConvertAmount(ParseAmount(fullText), spell);
  }

  /** A whole amount is spelled from the digits after its `£`. */
  lemma ConvertAmount(x: string, spell: string -> string)
    requires IsAmount(x)
    ensures IsDecimal(x[1..]) && ConvertAmountToWords(x, spell) == spell(x[1..]) + (" (" + x + ")")
  {
    NumericPartOfAmount(x);
    assert StartsWith(x, "£") by {
      assert x[..1] == "£";
    }
  }

  // ---------------------------------------------------------------------------
  // get_today_dd_mm_yy

  /** A calendar date as Python's `datetime.date` holds it. */
  datatype Date = Date(year: int, month: int, day: int)

  function DaysInMonth(year: int, month: int): int {
    if month == 2 then
      if (year % 4 == 0 && year % 100 != 0) || year % 400 == 0 then 29 else 28
    else if month == 4 || month == 6 || month == 9 || month == 11 then 30
    else 31
  }

  predicate ValidDate(d: Date) {
    1 <= d.year <= 9999 && 1 <= d.month <= 12 && 1 <= d.day <= DaysInMonth(d.year, d.month)
  }

  function DigitChar(n: nat): (c: char)
    requires n < 10
    ensures IsDigit(c)
  {
    ('0' as int + n) as char
  }

  /** A number below 100 written with two digits, zero-padded. */
  function TwoDigits(n: nat): (s: string)
    requires n < 100
    ensures |s| == 2 && AllDigits(s)
  {
    [DigitChar(n / 10), DigitChar(n % 10)]
  }

  /** The number two digits stand for. */
  function ReadTwoDigits(s: string): nat
    requires |s| == 2 && AllDigits(s)
  {
    (s[0] as int - '0' as int) * 10 + (s[1] as int - '0' as int)
  }

  /** `today.strftime("%d/%m/%y")`, the date handed in for `datetime.date.today()`. */
  function GetTodayDdMmYy(today: Date): (s: string)
    requires ValidDate(today)
    ensures |s| == 8 && s[2] == '/' && s[5] == '/'
    ensures AllDigits(s[..2]) && AllDigits(s[3..5]) && AllDigits(s[6..])
  {
    var s := TwoDigits(today.day) + "/" + TwoDigits(today.month) + "/" + TwoDigits(today.year % 100);
    assert s[..2] == TwoDigits(today.day) && s[3..5] == TwoDigits(today.month) && s[6..] == TwoDigits(today.year % 100);
    s
  }

  /** Reads a `DD/MM/YY` string back into its day, month and two-digit year. */
  function ReadDdMmYy(s: string): Option<(nat, nat, nat)> {
    if |s| == 8 && s[2] == '/' && s[5] == '/' && AllDigits(s[..2]) && AllDigits(s[3..5]) && AllDigits(s[6..])
    then Some((ReadTwoDigits(s[..2]), ReadTwoDigits(s[3..5]), ReadTwoDigits(s[6..])))
    else None
  }

  /** The short date holds the day and the month zero-padded to two digits and
      the year modulo 100, and nothing else: reading it back gives them. */
  lemma {:induction false} ShortDateRoundTrip(today: Date)
    requires ValidDate(today)
    ensures ReadDdMmYy(GetTodayDdMmYy(today)) == Some((today.day, today.month, today.year % 100))
  {
    var s := GetTodayDdMmYy(today);
    assert s[..2] == TwoDigits(today.day);
    assert s[3..5] == TwoDigits(today.month);
    assert s[6..] == TwoDigits(today.year % 100);
    TwoDigitsRoundTrip(today.day);
    TwoDigitsRoundTrip(today.month);
    TwoDigitsRoundTrip(today.year % 100);
  }

  lemma TwoDigitsRoundTrip(n: nat)
    requires n < 100
    ensures ReadTwoDigits(TwoDigits(n)) == n
  {
  }

  // ---------------------------------------------------------------------------
  // parse_quote_doc

  /** The fields `parse_quote_doc` returns. */
  datatype QuoteData = QuoteData(figure1: string, figure2: string, figure7Raw: string)

  /** `parse_quote_doc` on the document's text, with the labels as the script
      passes them. */
  method ParseQuoteDoc(fullText: string) returns (data: QuoteData)
    ensures data.figure1 == LabelValue(fullText, "Quote Ref:")
    ensures data.figure2 == LabelValue(fullText, "Date:")
    ensures data.figure7Raw == ParseAmount(fullText)
  {
    var figure1 := ParseLabel(fullText, "Quote Ref:");
    var figure2 := ParseLabel(fullText, "Date:");
    data := QuoteData(figure1, figure2, ParseAmount(fullText));
  }

  /** `parse_quote_doc` with the labels given without their colon, so that the
      pattern asks for one colon, as the docstring's example line has. */
  method ParseQuoteDocCorrected(fullText: string) returns (data: QuoteData)
    ensures data.figure1 == LabelValue(fullText, "Quote Ref")
    ensures data.figure2 == LabelValue(fullText, "Date")
    ensures data.figure7Raw == ParseAmount(fullText)
  {
    var figure1 := ParseLabel(fullText, "Quote Ref");
    var figure2 := ParseLabel(fullText, "Date");
    data := QuoteData(figure1, figure2, ParseAmount(fullText));
  }
}
