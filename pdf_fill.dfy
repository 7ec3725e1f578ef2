/** The text and byte logic of main.py: the quote reference read from the text
    of a quote PDF, and the `{{figure1}}` placeholder replaced in each content
    stream of a template PDF. Opening, reading and saving PDF files is not part
    of this model: page texts and content-stream bytes are parameters. */
module PdfFill {
  import opened Text

  // ---------------------------------------------------------------------------
  // extract_text_from_pdf

  /** `page.extract_text() or ""`: a page without text contributes `""`, and a
      page with text contributes that text. */
  function PageText(t: Option<string>): (text: string)
    ensures text == "" <==> t.None? || t.value == ""
    ensures text != "" ==> text == t.value
  {
    if t.Some? then t.value else ""
  }

  /** The text of each page, in page order. */
  function PageTexts(pages: seq<Option<string>>): (texts: seq<string>)
    ensures |texts| == |pages|
    ensures forall n :: 0 <= n < |pages| ==> texts[n] == PageText(pages[n])
  {
    seq(|pages|, n requires 0 <= n < |pages| => PageText(pages[n]))
  }

  /** `extract_text_from_pdf`: collects the page texts in a list, in page order,
      and joins them with `"\n"`. */
  method ExtractTextFromPdf(pages: seq<Option<string>>) returns (text: string)
    ensures text == Join(PageTexts(pages), "\n")
  {
    var allText: seq<string> := [];
    for i := 0 to |pages|
      invariant allText == PageTexts(pages[..i])
    {
      allText := allText + [PageText(pages[i])];
    }
    assert pages[..|pages|] == pages;
    text := Join(allText, "\n");
  }

  /** Joining is compatible with splitting the page list: the text of the first
      pages, a `"\n"`, then the text of the others. */
  lemma {:induction false} JoinAppend(a: seq<string>, b: seq<string>, sep: string)
    requires a != [] && b != []
    ensures Join(a + b, sep) == Join(a, sep) + sep + Join(b, sep)
  {
    if |a| > 1 {
      assert (a + b)[1..] == a[1..] + b;
      JoinAppend(a[1..], b, sep);
    } else {
      assert (a + b)[1..] == b;
    }
  }

  /** Pages are read in order: the text of `first + rest` is the text of
      `first`, a line break, then the text of `rest`. */
  lemma PagesInOrder(first: seq<Option<string>>, rest: seq<Option<string>>)
    requires first != [] && rest != []
    ensures Join(PageTexts(first + rest), "\n") == Join(PageTexts(first), "\n") + "\n" + Join(PageTexts(rest), "\n")
  {
    assert PageTexts(first + rest) == PageTexts(first) + PageTexts(rest);
    JoinAppend(PageTexts(first), PageTexts(rest), "\n");
  }

  // ---------------------------------------------------------------------------
  // parse_figure1_value

  /** The literal start of the pattern `^Quote Ref:\s*(.+)$`. */
  const QuoteRef: string := "Quote Ref:"

  /** What `parse_figure1_value(pdf_text)` returns. Unlike `parse_label`, the
      lines are matched as they are, without stripping: a line must start with
      `Quote Ref:` in its first column and go on for at least one character.
      The first such line decides; its value is its remainder, stripped, which
      is `""` when that remainder is only whitespace. With no such line the
      result is `""` as well. */
  function Figure1Value(pdfText: string): (reference: string)
    ensures (forall n :: 0 <= n < |SplitLines(pdfText)| ==> !LineMatches(SplitLines(pdfText)[n], QuoteRef)) ==> reference == ""
    ensures reference != "" ==>
      exists n ::
        && 0 <= n < |SplitLines(pdfText)| && LineMatches(SplitLines(pdfText)[n], QuoteRef)
        && (forall m :: 0 <= m < n ==> !LineMatches(SplitLines(pdfText)[m], QuoteRef))
        && reference == Strip(SplitLines(pdfText)[n][|QuoteRef|..])
    ensures IsStripped(reference)
  {
    match FirstMatch(SplitLines(pdfText), QuoteRef)
    case None => ""
    case Some(v) => v
  }

  /** `parse_figure1_value`: scans the lines in order and returns at the first
      match. */
  method ParseFigure1Value(pdfText: string) returns (reference: string)
    ensures reference == Figure1Value(pdfText)
  {
    var lines := SplitLines(pdfText);
    assert lines[0..] == lines;
    var i := 0;
    while i < |lines|
      invariant 0 <= i <= |lines|
      invariant NoNewlines(lines[i..])
      invariant FirstMatch(lines[i..], QuoteRef) == FirstMatch(lines, QuoteRef)
    {
      FirstMatchStep(lines, QuoteRef, i);
      if LineMatches(lines[i], QuoteRef) {
        var m := MatchLine(lines[i], QuoteRef);
        return m.value;
      }
      i := i + 1;
    }
    assert lines[i..] == [];
    return "";
  }

  /** The first matching line decides: its remainder after `Quote Ref:`,
      stripped, is the reference, whatever later lines hold. */
  lemma Figure1ValueFirstMatch(pdfText: string, n: nat)
    requires n < |SplitLines(pdfText)|
    requires LineMatches(SplitLines(pdfText)[n], QuoteRef)
    requires forall m :: 0 <= m < n ==> !LineMatches(SplitLines(pdfText)[m], QuoteRef)
    ensures Figure1Value(pdfText) == Strip(SplitLines(pdfText)[n][|QuoteRef|..])
  {
    FirstMatchAt(SplitLines(pdfText), QuoteRef, n);
  }

  /** The first matching line decides, even when its remainder is only
      whitespace: the result is then `""`, and later lines are not looked at. */
  lemma BlankReferenceStops(pdfText: string, n: nat)
    requires n < |SplitLines(pdfText)|
    requires LineMatches(SplitLines(pdfText)[n], QuoteRef)
    requires forall m :: 0 <= m < n ==> !LineMatches(SplitLines(pdfText)[m], QuoteRef)
    requires AllSpace(SplitLines(pdfText)[n][|QuoteRef|..])
    ensures Figure1Value(pdfText) == ""
  {
    FirstMatchAt(SplitLines(pdfText), QuoteRef, n);
    StripAllSpace(SplitLines(pdfText)[n][|QuoteRef|..]);
  }

  /** A line that begins with whitespace never matches `^Quote Ref:`, since
      lines are not stripped before the match. */
  lemma IndentedLineNotFound(pad: string, line: string)
    requires pad != [] && AllSpace(pad)
    ensures !LineMatches(pad + line, QuoteRef)
  {
    assert (pad + line)[0] == pad[0];
    assert QuoteRef[0] == 'Q' && !IsSpace('Q');
  }

  /** So a text that is one indented line gives `""`, whatever follows the
      indentation. */
  lemma IndentedTextNotFound(pad: string, line: string)
    requires pad != [] && AllSpace(pad) && NoLineBreak(pad + line)
    ensures Figure1Value(pad + line) == ""
  {
    SplitLinesOfJoin([pad + line]);
    IndentedLineNotFound(pad, line);
  }

  /** The reference read from a quote PDF is the first page line that matches,
      provided no page text holds a line boundary of its own and the last page
      has text. */
  lemma Figure1ValueOfPages(pages: seq<Option<string>>, n: nat)
    requires forall k :: 0 <= k < |pages| ==> NoLineBreak(PageText(pages[k]))
    requires pages != [] && PageText(pages[|pages| - 1]) != ""
    requires n < |pages| && LineMatches(PageText(pages[n]), QuoteRef)
    requires forall m :: 0 <= m < n ==> !LineMatches(PageText(pages[m]), QuoteRef)
    ensures Figure1Value(Join(PageTexts(pages), "\n")) == Strip(PageText(pages[n])[|QuoteRef|..])
  {
    SplitLinesOfJoin(PageTexts(pages));
    FirstMatchAt(PageTexts(pages), QuoteRef, n);
  }

  // ---------------------------------------------------------------------------
  // The per-stream step of replace_placeholder_in_pdf

  type Byte = b: int | 0 <= b < 256

  /** `bytes.decode('latin-1')`: every byte is the code point of the same
      value, so nothing is ever replaced on decoding. */
  function Latin1Decode(data: seq<Byte>): (s: string)
    ensures |s| == |data| && forall k :: 0 <= k < |data| ==> s[k] as int == data[k]
  {
    seq(|data|, k requires 0 <= k < |data| => data[k] as char)
  }

  predicate IsLatin1(s: string) {
    forall k :: 0 <= k < |s| ==> s[k] as int < 256
  }

  /** `str.encode('latin-1', errors='replace')`: a code point below 256 becomes
      the byte of that value, any other becomes `?` (0x3F). */
  function Latin1Encode(s: string): (data: seq<Byte>)
    ensures |data| == |s|
    ensures forall k :: 0 <= k < |s| && s[k] as int < 256 ==> data[k] == s[k] as int
    ensures forall k :: 0 <= k < |s| && s[k] as int >= 256 ==> data[k] == 0x3F
  {
    seq(|s|, k requires 0 <= k < |s| => if s[k] as int < 256 then s[k] as int else 0x3F)
  }

  /** Decoding is lossless: encoding the decoded text gives the bytes back. */
  lemma EncodeDecode(data: seq<Byte>)
    ensures Latin1Encode(Latin1Decode(data)) == data
  {
  }

  /** On Latin-1 text, encoding is undone by decoding. */
  lemma DecodeEncode(s: string)
    requires IsLatin1(s)
    ensures Latin1Decode(Latin1Encode(s)) == s
  {
    var r := Latin1Decode(Latin1Encode(s));
    assert forall k :: 0 <= k < |s| ==> r[k] as int == s[k] as int;
  }

  /** The decoded stream is always Latin-1 text. */
  lemma DecodedIsLatin1(data: seq<Byte>)
    ensures IsLatin1(Latin1Decode(data))
  {
  }

  /** One content stream: decode, replace every occurrence, encode again. */
  function ReplaceInStream(data: seq<Byte>, placeholder: string, replacement: string): (out: seq<Byte>)
    ensures |out| == |Replace(Latin1Decode(data), placeholder, replacement)|
    ensures forall k :: 0 <= k < |out| ==>
      out[k] == (var c := Replace(Latin1Decode(data), placeholder, replacement)[k];
                 if c as int < 256 then c as int else 0x3F)
    ensures IsLatin1(replacement) ==> Latin1Decode(out) == Replace(Latin1Decode(data), placeholder, replacement)
  {
    var text := Replace(Latin1Decode(data), placeholder, replacement);
    assert IsLatin1(replacement) ==> Latin1Decode(Latin1Encode(text)) == text by {
      if IsLatin1(replacement) {
        ReplaceKeepsLatin1(Latin1Decode(data), placeholder, replacement);
        DecodeEncode(text);
      }
    }
    Latin1Encode(text)
  }

  /** A stream without the placeholder comes out byte for byte as it went in. */
  lemma StreamWithoutPlaceholder(data: seq<Byte>, placeholder: string, replacement: string)
    requires placeholder != [] && !Occurs(Latin1Decode(data), placeholder)
    ensures ReplaceInStream(data, placeholder, replacement) == data
  {
    ReplaceAbsent(Latin1Decode(data), placeholder, replacement);
    EncodeDecode(data);
  }

  /** Each of the non-overlapping occurrences counted from the left changes the
      stream's length by `|replacement| - |placeholder|`. */
  lemma StreamLength(data: seq<Byte>, placeholder: string, replacement: string)
    ensures |ReplaceInStream(data, placeholder, replacement)|
         == |data| + Count(Latin1Decode(data), placeholder) * (|replacement| - |placeholder|)
  {
    ReplaceLength(Latin1Decode(data), placeholder, replacement);
  }

  /** Replacing the placeholder by itself leaves the stream as it is. */
  lemma StreamSelfReplacement(data: seq<Byte>, placeholder: string)
    ensures ReplaceInStream(data, placeholder, placeholder) == data
  {
    ReplaceWithItself(Latin1Decode(data), placeholder);
    EncodeDecode(data);
  }

  /** Replacing keeps text Latin-1 when the replacement is. */
  lemma {:induction false} ReplaceKeepsLatin1(s: string, pat: string, rep: string)
    requires IsLatin1(s) && IsLatin1(rep)
    ensures IsLatin1(Replace(s, pat, rep))
    decreases |s|
  {
    if pat == [] {
      if s != [] {
        ReplaceKeepsLatin1(s[1..], pat, rep);
      }
    } else if |s| >= |pat| {
      if s[..|pat|] == pat {
        ReplaceKeepsLatin1(s[|pat|..], pat, rep);
      } else {
        ReplaceKeepsLatin1(s[1..], pat, rep);
      }
    }
  }

  // The example lemmas take their literals as parameters fixed by `requires`:
  // a literal in the `ensures` itself makes the solver's work much larger.
  /** The one-line template `Ref: {{figure1}}` filled with `AB_123` reads
      `Ref: AB_123`. */
  lemma TemplateLineFilled(a: string, reference: string)
    requires a == "Ref: " && reference == "AB_123"
    ensures Replace(a + Figure1Token, Figure1Token, reference) == "Ref: AB_123"
  {
    forall k | 0 <= k < |a|
      ensures !OccursAt(a + Figure1Token + [], Figure1Token, k)
    {
      assert (a + Figure1Token + [])[k..k + |Figure1Token|][0] == a[k] != '{';
    }
    ReplaceAtOccurrence(a, Figure1Token, [], reference);
    assert a + Figure1Token + [] == a + Figure1Token;
  }

  /** The placeholder need not be gone afterwards: removing `{{figure1}}` from
      `{{fig{{figure1}}ure1}}` leaves `{{figure1}}`. */
  lemma PlaceholderCanReappear(a: string, placeholder: string, b: string)
    requires a == "{{fig" && placeholder == "{{figure1}}" && b == "ure1}}"
    ensures Replace(a + placeholder + b, placeholder, "") == placeholder
  {
    var s := a + placeholder + b;
    assert a[0] == '{' && a[1] == '{' && a[2] == 'f' && a[3] == 'i' && a[4] == 'g';
    assert placeholder[0] == '{' && placeholder[1] == '{' && placeholder[5] == 'u';
    forall k | 0 <= k < |a|
      ensures !OccursAt(s, placeholder, k)
    {
      var d := if k == 0 then 5 else if k == 1 then 1 else 0;
      assert s[k + d] == if k + d < |a| then a[k + d] else placeholder[k + d - |a|];
      assert s[k..k + |placeholder|][d] == s[k + d] != placeholder[d];
    }
    RemovalJoins(a, placeholder, b);
    assert a + b == placeholder;
  }

  // ---------------------------------------------------------------------------
  // replace_placeholder_in_pdf and main

  /** `page.Contents`: absent, one stream, or a list of streams. */
  datatype Contents = NoContents | Single(stream: seq<Byte>) | Multiple(streams: seq<seq<Byte>>)

  /** The local list of streams the page loop builds for a page. */
  function StreamsOf(c: Contents): (streams: seq<seq<Byte>>)
    ensures c.NoContents? ==> streams == []
    ensures c.Single? ==> streams == [c.stream]
    ensures c.Multiple? ==> streams == c.streams
  {
    match c
    case NoContents => []
    case Single(s) => [s]
    case Multiple(ss) => ss
  }

  /** Every stream of a list, replaced, in the same order. */
  function RewrittenStreams(streams: seq<seq<Byte>>, placeholder: string, replacement: string): (r: seq<seq<Byte>>)
    ensures |r| == |streams|
    ensures forall i :: 0 <= i < |streams| ==> r[i] == ReplaceInStream(streams[i], placeholder, replacement)
  {
    seq(|streams|, i requires 0 <= i < |streams| => ReplaceInStream(streams[i], placeholder, replacement))
  }

  /** The stream loop: entry `i` is overwritten, at step `i`, by its replaced
      bytes; the list keeps its length and no other entry changes. */
  method RewriteStreams(streams: array<seq<Byte>>, placeholder: string, replacement: string)
    modifies streams
    ensures streams[..] == RewrittenStreams(old(streams[..]), placeholder, replacement)
  {
    for i := 0 to streams.Length
      invariant forall k :: 0 <= k < i ==> streams[k] == ReplaceInStream(old(streams[k]), placeholder, replacement)
      invariant forall k :: i <= k < streams.Length ==> streams[k] == old(streams[k])
    {
      streams[i] := ReplaceInStream(streams[i], placeholder, replacement);
    }
  }

  /** `replace_placeholder_in_pdf`, up to saving: for every page, in order, the
      replaced bytes of each of its content streams. A page without contents has
      no streams. */
  method ReplacePlaceholderInPdf(pages: seq<Contents>, placeholder: string, replacement: string)
    returns (rewritten: seq<seq<seq<Byte>>>)
    ensures |rewritten| == |pages|
    ensures forall n :: 0 <= n < |pages| ==> rewritten[n] == RewrittenStreams(StreamsOf(pages[n]), placeholder, replacement)
  {
    rewritten := [];
    for n := 0 to |pages|
      invariant |rewritten| == n
      invariant forall m :: 0 <= m < n ==> rewritten[m] == RewrittenStreams(StreamsOf(pages[m]), placeholder, replacement)
    {
      var page := pages[n];
      if page.NoContents? {
        rewritten := rewritten + [[]];
      } else {
        var streams := new seq<Byte>[|StreamsOf(page)|](i requires 0 <= i < |StreamsOf(page)| => StreamsOf(page)[i]);
        RewriteStreams(streams, placeholder, replacement);
        rewritten := rewritten + [streams[..]];
      }
    }
  }

  /** The placeholder `main` fills. */
  const Figure1Token: string := "{{figure1}}"

  /** What `main` does: it stops without touching the template when the quote
      has no reference, and otherwise fills the placeholder with it. */
  datatype Outcome = Aborted | Filled(reference: string, pages: seq<seq<seq<Byte>>>)

  /** `main`: read the quote's text, take its reference, and fill the template
      when the reference is not empty. */
  method FillTemplate(quotePages: seq<Option<string>>, template: seq<Contents>) returns (outcome: Outcome)
    ensures outcome.Aborted? <==> Figure1Value(Join(PageTexts(quotePages), "\n")) == ""
    ensures outcome.Filled? ==>
      && outcome.reference == Figure1Value(Join(PageTexts(quotePages), "\n"))
      && |outcome.pages| == |template|
      && forall n :: 0 <= n < |template| ==>
           outcome.pages[n] == RewrittenStreams(StreamsOf(template[n]), Figure1Token, outcome.reference)
  {
    var quoteText := ExtractTextFromPdf(quotePages);
    var figure1 := ParseFigure1Value(quoteText);
    if figure1 == "" {
      return Aborted;
    }
    var pages := ReplacePlaceholderInPdf(template, Figure1Token, figure1);
    return Filled(figure1, pages);
  }
}
