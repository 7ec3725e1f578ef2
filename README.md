# Quote reference and placeholder filling, modelled in Dafny

This project models the text logic of two small scripts that move figures
from a quotation document into a terms-and-conditions template.

- `word_only/parse_quote.py` reads labelled values (`Quote Ref:`, `Date:`) and
  the first pound amount (`£400`, `£750.00`) out of a quote document's text,
  spells the amount out, and formats today's date as `DD/MM/YY`.
- `main.py` joins the page texts of a quote PDF, takes the value of the first
  line that starts with `Quote Ref:` and has at least one more character, and replaces the `{{figure1}}`
  placeholder with it in every content stream of a template PDF: each stream
  is decoded as Latin-1, the placeholder is replaced, and the text is encoded
  back as Latin-1 with `?` for characters Latin-1 cannot hold. With no
  reference, nothing is filled.

The files:

- `text.dfy` (module `Text`): the pieces of Python both scripts rely on,
  written out: `str.isspace`, `str.strip`, `str.splitlines`, `"\n".join`,
  `str.replace`, and the line pattern `^P\s*(.+)$` with a first-match search
  over lines. `Count`, Python's `str.count`, is not called by the scripts; it
  is the occurrence count used to state how `replace` changes the length.
- `parse_quote.dfy` (module `ParseQuote`): `parse_label`, `parse_amount`,
  `convert_amount_to_words`, `get_today_dd_mm_yy` and `parse_quote_doc`.
- `pdf_fill.dfy` (module `PdfFill`): `extract_text_from_pdf`,
  `parse_figure1_value`, the per-stream step and the page and stream loops of
  `replace_placeholder_in_pdf`, and `main`.

Each loop of the scripts is a method proved against a function that states
what it computes. The properties are proved about those functions.

## Model

| member | source | states |
|---|---|---|
| Text.LineBreakIsSpace | main.py:16 | every boundary `splitlines` cuts at is a character `isspace` accepts |
| Text.DigitNotSpace | word_only/parse_quote.py:60 | no `\d` character is whitespace, so `strip` keeps the digits at the ends of an amount |
| Text.Strip | word_only/parse_quote.py:36 | `strip` returns a slice of its input with only whitespace cut off on both sides, and neither end of the result is whitespace |
| Text.StripSpan | word_only/parse_quote.py:36 | whenever a slice has only whitespace outside it and no whitespace at its ends, `strip` returns exactly that slice |
| Text.StripIgnoresPadding | word_only/parse_quote.py:36 | whitespace added around a string does not change what `strip` returns |
| Text.StripIdempotent | word_only/parse_quote.py:39 | stripping twice is stripping once |
| Text.StripNoLineBreak | word_only/parse_quote.py:36 | stripping a line without line boundaries cannot create one |
| Text.StripNonEmpty | word_only/parse_quote.py:39 | a string that ends in non-whitespace does not strip to `""` |
| Text.StripAllSpace | main.py:19 | a whitespace-only string strips to `""` |
| Text.StripKeepsOut | word_only/parse_quote.py:60 | a character absent before stripping is absent after |
| Text.SplitLines | main.py:16 | `splitlines` yields lines that hold no line boundary |
| Text.SplitLinesOfLine | main.py:16 | a text without line boundaries is one line, or no line when it is empty |
| Text.SplitLinesAfterBreak | main.py:16 | any single boundary (`\n`, `\v`, `\f`, `\r` not before `\n`, `\x1c`-`\x1e`, `\x85`, U+2028, U+2029) ends the line before it, and a boundary at the very end opens no new line |
| Text.SplitLinesAfterCrLf | main.py:16 | `\r\n` is one boundary, not two |
| Text.Join | main.py:12 | the join's length is the parts' total length plus one separator fewer than there are parts, and it starts with the first part |
| Text.SplitLinesOfJoin | main.py:12 | splitting a `"\n"`-joined list of boundary-free parts, the last one non-empty, gives the parts back |
| Text.Replace | main.py:30 | a non-empty pattern replaced by nothing longer never lengthens the text, and a text shorter than the pattern is unchanged |
| Text.ReplaceCopiesPrefix | main.py:30 | characters before the first occurrence are copied unchanged |
| Text.ReplaceAtOccurrence | main.py:30 | at the first occurrence, the pattern becomes the replacement and the scan goes on after it |
| Text.RemovalJoins | main.py:30 | removing the one occurrence in `a + pat + b` joins `a` and `b` |
| Text.Count | main.py:30 | the non-overlapping occurrences of a non-empty pattern fit in the text: their number times the pattern's length is at most its length |
| Text.ReplaceDropsChar | word_only/parse_quote.py:60 | replacing a one-character pattern with `""` leaves no occurrence of that character |
| Text.ReplaceLength | main.py:30 | `replace` changes the length by the count of non-overlapping occurrences times the length difference |
| Text.CountZeroIffAbsent | main.py:30 | a non-empty pattern counts zero exactly when it occurs nowhere |
| Text.ReplaceAbsent | main.py:30 | a string without a non-empty pattern is unchanged by `replace` |
| Text.ReplaceCountZero | main.py:30 | a count of zero means `replace` changes nothing |
| Text.ReplaceWithItself | main.py:30 | replacing a pattern with itself changes nothing, for every pattern including the empty one |
| Text.CapturedGroup | main.py:15 | group 1 is a non-empty suffix of the text after `P` with only whitespace before it; it starts with non-whitespace unless the whole remainder is whitespace, when backtracking leaves exactly its last character |
| Text.MatchLine | main.py:15-19 | `^P\s*(.+)$` matches a line exactly when it starts with `P` and goes on, and group 1 stripped is the remainder after `P`, stripped |
| Text.FirstMatch | main.py:16-20 | the search returns nothing exactly when no line matches, and otherwise the value of a matching line that no earlier line precedes |
| Text.FirstMatchStep | main.py:16-19 | the search from line `i` returns line `i`'s value when it matches and otherwise goes on from line `i + 1` |
| Text.FirstMatchAt | word_only/parse_quote.py:35-39 | the first matching line decides the result |
| Text.FirstMatchOfStripped | word_only/parse_quote.py:35-39 | on stripped lines a match never has an empty value |
| Text.FirstMatchIgnoresLater | main.py:16-19 | lines after a match do not change the result |
| ParseQuote.StrippedLines | word_only/parse_quote.py:35-36 | the lines `parse_label` matches are the text's lines, each stripped, so none has whitespace at an end |
| ParseQuote.LabelValue | word_only/parse_quote.py:30-40 | `""` exactly when no stripped line starts with `label + ":"` and goes on; otherwise a value with no whitespace at either end |
| ParseQuote.ParseLabel | word_only/parse_quote.py:35-40 | the loop with early return computes `LabelValue` |
| ParseQuote.LabelValueFirstMatch | word_only/parse_quote.py:35-39 | the first matching stripped line gives the value: its remainder after `label + ":"`, stripped |
| ParseQuote.LabelLineIgnoresPadding | word_only/parse_quote.py:36-37 | whitespace around a line changes neither whether it matches nor its value |
| ParseQuote.LabelValueOfOneLine | word_only/parse_quote.py:34-40 | on a one-line text that is already stripped, the value is the stripped remainder when the line starts with `label + ":"` and goes on, and `""` otherwise |
| ParseQuote.LabelValueOfAnyLine | word_only/parse_quote.py:34-40 | on any one-line text the line is stripped first: the value is the stripped line's remainder after `label + ":"`, stripped, when the stripped line starts with it and goes on, and `""` otherwise |
| ParseQuote.LabelValueOfLabelLine | word_only/parse_quote.py:34-39 | the one-line text `label:` followed by a value yields that value, stripped, whatever whitespace surrounds it, and `""` for a value of only whitespace (for a label that does not start with whitespace) |
| ParseQuote.CallSiteLabelMissesSingleColon | word_only/parse_quote.py:20-21 | with a call-site label that does not start with whitespace, a one-line text `label` + value is never found unless the value starts with a second colon, whatever whitespace follows |
| ParseQuote.CallSiteMissesQuoteRef | word_only/parse_quote.py:20 | the line `Quote Ref: AB_123` gives `""` with the label `Quote Ref:` |
| ParseQuote.CorrectedLabelFindsQuoteRef | word_only/parse_quote.py:32 | with the label `Quote Ref` the same line gives `AB_123` |
| ParseQuote.FindAmountStart | word_only/parse_quote.py:48 | the leftmost index from which a `£` followed by a digit starts, or none |
| ParseQuote.DigitsEnd | word_only/parse_quote.py:48 | the end of the maximal digit run, so `\d+` is greedy |
| ParseQuote.AmountEnd | word_only/parse_quote.py:48 | the greedy match from a start covers `£` and at least one digit and stays inside the text |
| ParseQuote.AmountEndIsLongest | word_only/parse_quote.py:48 | the greedy end is a match, and no match from the same start is longer |
| ParseQuote.ParseAmount | word_only/parse_quote.py:42-51 | a non-empty result matches `£\d+(\.\d+)?` as a whole |
| ParseQuote.ParseAmountIsLeftmostLongest | word_only/parse_quote.py:42-51 | `""` exactly when no substring matches `£\d+(\.\d+)?`; otherwise a matching substring that starts leftmost and is longest there |
| ParseQuote.ParseAmountOfAmount | word_only/parse_quote.py:48-50 | a whole match is found in full |
| ParseQuote.ParseAmountIdempotent | word_only/parse_quote.py:44-50 | `parse_amount` of its own result is that result |
| ParseQuote.ParseAmountTrailingDot | word_only/parse_quote.py:48 | `£400.` gives `£400`: a `.` no digit follows is not part of the amount |
| ParseQuote.ParseAmountSkipsBareDot | word_only/parse_quote.py:48 | `£.5 or £750.00` gives `£750.00`: `£.5` is no match, so the search moves on |
| ParseQuote.ConvertAmountToWords | word_only/parse_quote.py:53-63 | input not starting with `£` is returned unchanged; otherwise the result ends with ` (` + input + `)` |
| ParseQuote.NumericPart | word_only/parse_quote.py:60 | the text handed to `float` holds no `£` and has no whitespace at either end |
| ParseQuote.NumericPartOfAmount | word_only/parse_quote.py:60 | on a found amount, the text handed to `float` is the amount without `£` and is a plain decimal |
| ParseQuote.ConvertAmount | word_only/parse_quote.py:57-63 | a whole amount is spelled from the digits after its `£`, a plain decimal, and followed by itself in parentheses |
| ParseQuote.ConvertParsedAmount | word_only/parse_quote.py:57-63 | the found amount is spelled from its decimal part and followed by itself in parentheses |
| ParseQuote.GetTodayDdMmYy | word_only/parse_quote.py:65-70 | eight characters, `/` at indices 2 and 5, digits elsewhere |
| ParseQuote.ShortDateRoundTrip | word_only/parse_quote.py:70 | reading the string back gives the day, the month and the year modulo 100 |
| ParseQuote.TwoDigitsRoundTrip | word_only/parse_quote.py:70 | a zero-padded two-digit field reads back as its number |
| ParseQuote.ParseQuoteDoc | word_only/parse_quote.py:9-28 | figure1, figure2 and the raw amount are the label values for `Quote Ref:` and `Date:` and the first amount |
| ParseQuote.ParseQuoteDocCorrected | word_only/parse_quote.py:20-22 | the same record with the labels given without their colon |
| PdfFill.PageText | main.py:10 | a page gives `""` exactly when it has no text or empty text, and otherwise its text |
| PdfFill.PageTexts | main.py:10 | one text per page, in order, `""` for a page without text |
| PdfFill.ExtractTextFromPdf | main.py:5-12 | the loop collects the page texts in order and joins them with `"\n"` |
| PdfFill.JoinAppend | main.py:12 | the join of two non-empty lists is the two joins with `"\n"` between them |
| PdfFill.PagesInOrder | main.py:9-12 | the text of the pages `first + rest` is the text of `first`, `"\n"`, then the text of `rest` |
| PdfFill.Figure1Value | main.py:14-20 | `""` when no unstripped line starts with `Quote Ref:` and goes on; a non-empty value is the stripped remainder of the first such line; never whitespace at an end |
| PdfFill.Figure1ValueFirstMatch | main.py:16-19 | whenever line `n` is the first line that starts with `Quote Ref:` and goes on, the value is that line's remainder, stripped |
| PdfFill.ParseFigure1Value | main.py:14-20 | the loop with early return computes `Figure1Value` |
| PdfFill.BlankReferenceStops | main.py:16-19 | a first matching line with a whitespace-only remainder gives `""`, whatever later lines hold |
| PdfFill.IndentedLineNotFound | main.py:15-17 | a line that starts with whitespace never matches, whatever text it is part of |
| PdfFill.IndentedTextNotFound | main.py:15-20 | so a text that is one indented line gives `""` |
| PdfFill.Figure1ValueOfPages | main.py:9-19 | the reference of a quote PDF is the stripped remainder of the first page line that matches |
| PdfFill.Latin1Decode | main.py:29 | one character per byte, each with the byte's value |
| PdfFill.Latin1Encode | main.py:31 | one byte per character: its value below 256, `?` (0x3F) otherwise |
| PdfFill.EncodeDecode | main.py:29-31 | encoding the decoded stream gives back the same bytes |
| PdfFill.DecodeEncode | main.py:29-31 | decoding undoes encoding on Latin-1 text |
| PdfFill.DecodedIsLatin1 | main.py:29 | a decoded stream holds only Latin-1 characters |
| PdfFill.ReplaceInStream | main.py:28-31 | byte `k` of the new stream is character `k` of the replaced text when it is below 256 and `?` (0x3F) otherwise; with a Latin-1 replacement the new stream decodes to exactly the replaced text |
| PdfFill.StreamWithoutPlaceholder | main.py:28-31 | a stream without the placeholder comes out byte for byte as it went in |
| PdfFill.StreamLength | main.py:28-31 | the new stream's length is the old length plus the occurrence count times the length difference |
| PdfFill.StreamSelfReplacement | main.py:28-31 | replacing the placeholder by itself leaves every stream unchanged |
| PdfFill.ReplaceKeepsLatin1 | main.py:30 | a Latin-1 replacement keeps Latin-1 text Latin-1 |
| PdfFill.TemplateLineFilled | main.py:30 | the template line `Ref: {{figure1}}` filled with `AB_123` reads `Ref: AB_123` |
| PdfFill.PlaceholderCanReappear | main.py:30 | removing `{{figure1}}` from `{{fig{{figure1}}ure1}}` leaves `{{figure1}}`, so the placeholder can remain after replacement |
| PdfFill.StreamsOf | main.py:25-26 | a page without contents has no streams, a single stream is wrapped in a one-element list, and a list of streams is taken as it is |
| PdfFill.RewrittenStreams | main.py:27-32 | every stream of a list replaced, in the same order and number |
| PdfFill.RewriteStreams | main.py:27-32 | the array keeps its length and entry `i` becomes the replaced entry `i`; every entry is handled once, in order |
| PdfFill.ReplacePlaceholderInPdf | main.py:22-32 | for each page in order, the replaced bytes of its streams; a page without contents has none |
| PdfFill.FillTemplate | main.py:35-48 | aborts exactly when the reference read from the quote's text is `""`; otherwise fills `{{figure1}}` with that reference in every stream of every page |

## Left out

- Reading and writing documents is not modelled. This covers `docx2python`,
  `DocxTemplate`, `docx2pdf`, PyPDF2's `extract_text`, and pikepdf's
  open, `Stream` construction and save. These are library calls, so page
  texts and stream bytes are parameters.
- `fill_t_and_cs` and the `main` of `word_only/parse_quote.py` are not
  modelled. The first is only template I/O, and everything after `exit()`
  in the second cannot run.
- `test.py` is not part of this model. It fills PDF form fields through a
  library and runs Ghostscript.
- ParseQuote.ConvertAmountToWords: `num2words` and `float` are the parameter
  `spell`, so the words themselves, floating point and the `ValueError` on
  text that is not a number are not modelled.
- ParseQuote.GetTodayDdMmYy: the clock is not read; the date is a parameter.
- Printing in `main` is left out.
- Text.IsDigit: `\d` is limited to the ASCII digits. Python's `\d` also
  matches other Unicode decimal digits.
- ParseQuote.LabelValue: the label is treated as literal text. The script
  puts it into the pattern unescaped, which only matters for labels holding
  regular-expression metacharacters; the labels used hold none.
- Text.MatchLine: lines are assumed to hold no `"\n"`, which holds for every
  line `splitlines` yields.
- PdfFill.ReplacePlaceholderInPdf: whether the new streams reach the saved
  file is not modelled. The script stores them in a local list, which in the
  one-stream case is built fresh for the page, so the page itself is not
  updated there. The list case depends on pikepdf internals.
- PdfFill.Figure1ValueOfPages: it needs page texts without line boundaries
  and a last page with text. For any other page texts,
  `PdfFill.Figure1ValueFirstMatch` gives the value on the joined text from
  its first matching line.
- PdfFill.FillTemplate: it returns the new streams rather than saving them.

## Findings

| source | as written | input that shows it | evidently intended | confidence | as-written member | corrected member |
|---|---|---|---|---|---|---|
| word_only/parse_quote.py:20-21 | `parse_label` is called with `"Quote Ref:"` and `"Date:"`, and line 34 adds another colon, so a line must contain `Quote Ref::` or `Date::` | the text `Quote Ref: AB_123` (the docstring's own example, line 32) gives `""` | the labels without the trailing colon, so that line gives `AB_123` | high; not executed | ParseQuote.CallSiteMissesQuoteRef | ParseQuote.CorrectedLabelFindsQuoteRef |

`ParseQuote.CallSiteLabelMissesSingleColon` states the general form of the
finding: with a call-site label, no one-line text `label` + value is found
unless the value starts with a second colon, whatever whitespace follows it. `ParseQuote.ParseQuoteDocCorrected` is
`parse_quote_doc` with the corrected labels. `ParseQuote.ParseQuoteDoc` keeps
the labels as written.
