# PagBank label cutter — a Dafny model

The program takes an A4 PDF shipping label from PagBank's "Envio Fácil". It
cuts out the label rectangle, which the user gives in millimetres from the
page's top-left corner plus four extra margins. It produces two one-page
PDFs:

- the exact crop;
- a "fit" page of the target size (100 × 150 mm by default), with the crop
  scaled uniformly onto it.

The files are named after the recipient. The name is guessed from the
crop's text and turned into a file-name slug.

This project models the core of `app.py`. That file writes the Streamlit
app out from the string literal at app.py:8-180. The model follows the
program written out. The literal is not raw, so its `\\s` escapes
(app.py:41, app.py:155) become the whitespace class `\s` of that program. Its modules:

- `Units`: millimetre/point conversion (`mm_to_pt`).
- `Geometry`: the crop rectangle and the fit scale of `build_crop_and_fit`,
  in points over `real`, and the translate-then-scale content matrix.
- `Pages`: the page side of `build_crop_and_fit`. PyPDF2 pages are a class
  `Page` with a media box, a crop box and a list of content
  transformations. `deepcopy` is a constructor, and the box corners are
  assigned in place on the copies. The invalid page index is a `Result`
  failure.
- `Strings`: the Python string operations the heuristics use (`strip`,
  `re.sub` of a character class run, `in`, `lower`), stated once over
  `seq<char>`.
- `TextLines`: the line list `[re.sub(r"\s+", " ", ln.strip()) for ln in
  t.splitlines() if ln.strip()]` and `len(s.split())`.
- `Slug`: `slugify`.
- `Recipient`: the window/fallback scan of `guess_recipient_from_pdf_bytes`
  and the inline scan the form runs (app.py:155-161). Both are imperative
  methods with loops, proved against recursive specification functions.

## Model

| member | source | states |
|---|---|---|
| Units.MmToPt | app.py:24-27 | points = mm · 72 / 25.4 (one inch is 72 pt and 25.4 mm) |
| Units.PtToMm | app.py:71 | `ph / MM_TO_PT` is the inverse of `mm_to_pt`: converting it back gives the points again |
| Units.MmToPtRoundTrip | app.py:24-27 | converting mm to points and back gives the same length |
| Units.MmToPtLinear | app.py:79-80 | the conversion distributes over sums and differences and commutes with scaling |
| Units.MmToPtMonotone | app.py:79-80 | the conversion preserves order in both directions |
| Geometry.BaseBottomMm | app.py:74 | bottom gap + base height + top offset = page height |
| Geometry.Unclamped | app.py:71-80 | each edge of the widened rectangle in points: left moved left by the left margin, bottom placed below the requested top by height plus bottom margin (measured from the page height), right moved right by the right margin, top moved up by the top margin; width and height are the widened sizes converted |
| Geometry.Clamp | app.py:81-82 | the clamped rectangle lies on the page; each edge only moves inward, and either stays or lands on the page edge |
| Geometry.ClampWithin | app.py:81-82 | a rectangle already on the page is unchanged by clamping |
| Geometry.ClampOrderedIff | app.py:81-82 | the clamped rectangle is ordered on an axis iff the unclamped span was ordered and overlaps the page on that axis |
| Geometry.ResolveRect | app.py:70-82 | the crop rectangle is the widened rectangle clamped to the page; it lies on the page, and equals the widened one iff that one was already on the page |
| Geometry.AxisScale | app.py:93 | a non-zero span times the factor is the target span; a zero span gives 1.0 |
| Geometry.FitScale | app.py:94 | the scale is the smaller of the two axis factors: at most each, equal to one |
| Geometry.FitScaleFits | app.py:91-94 | for a crop of positive size, the scaled crop fits the canvas on both axes and fills it on at least one |
| Geometry.Translate | app.py:105 | the translated matrix maps every point to its old image shifted by (tx, ty) |
| Geometry.Scale | app.py:105 | the scaled matrix maps every point to its old image scaled by (sx, sy) |
| Geometry.FitMap | app.py:105 | translate(-x0,-y0).scale(s,s) takes the crop's lower-left corner to the origin and its upper-right corner to (s·W, s·H) |
| Geometry.FitMapApply | app.py:105 | the fit matrix maps (x, y) to (s·(x − x0), s·(y − y0)) |
| Geometry.FitMapInCanvas | app.py:91-107 | with the fit scale, every point of a positive crop lands inside the fit page [0, w_out] × [0, h_out] |
| Geometry.Resolve | app.py:70-94 | page size from the media box; the crop is the clamped widened rectangle; target size converted from mm; sx and sy are the axis factors of that crop; scale = min(sx, sy); a positive crop fits the canvas and fills one axis |
| Geometry.ResolveSteps | app.py:70-94 | the layout is assembled from the clamped rectangle and the two axis factors, whichever way they were computed |
| Geometry.AspectExample | app.py:93-94 | a 200 × 100 pt crop on a 100 × 100 pt canvas gets scale 0.5 |
| Geometry.A4LabelExample | app.py:70-94 | an A4 page with rectangle 85/34/100/150 mm (+14 top, +18.6 right): base bottom 113 mm, crop 85..203.6 × 113..277 mm, scale 100/118.6 |
| Geometry.FormDefaultsExample | app.py:118-131 | with the form's defaults (top 182.5 mm) on A4 the rectangle reaches 35.5 mm below the page and is clamped to 0..128.5 mm tall |
| Pages.Page.constructor | app.py:69 | a page with the given boxes and no added transformations |
| Pages.Page.CopyOf | app.py:84 | a deep copy has the same boxes and content as the original |
| Pages.Page.SetBoxes | app.py:85-88 | both boxes become (x0, y0, x1, y1); the content is unchanged |
| Pages.Page.AddTransformation | app.py:105 | the matrix is appended to the content's transformations; the boxes are unchanged |
| Pages.BuildCropAndFit | app.py:66-114 | fails exactly on an out-of-range page index; otherwise two new pages: the crop with both boxes equal to the clamped rectangle and the original content, the fit with both boxes (0, 0, w_out, h_out) and the content plus the fit matrix; the debug values are the resolved layout |
| Pages.A4LabelRun | app.py:66-107 | on a fresh A4 page the crop's media box is 85..203.6 × 113..277 mm, the fit page is 100 × 150 mm and the scale is 100/118.6 |
| Strings.Lower | app.py:31 | same length, each character lower-cased in ASCII |
| Strings.LowerIdempotent | app.py:31 | lower-casing twice is lower-casing once |
| Strings.LowerAppend | app.py:31 | lower-casing works character by character: it distributes over concatenation |
| Strings.Filter | app.py:30 | the kept characters, all satisfying the test, no longer than the input |
| Strings.FilterAppend | app.py:30 | filtering distributes over concatenation |
| Strings.ContainsIff | app.py:46 | `needle in hay` holds iff the needle occurs at some position of the haystack |
| Strings.ContainsExtend | app.py:46 | a substring of a part is a substring of the whole |
| Strings.ContainsNeedsChar | app.py:46 | a needle with a character the haystack lacks is not in it |
| Strings.LeadCount | app.py:31 | the length of the leading run of class characters: all before it in the class, the next one not |
| Strings.TrailCount | app.py:31 | the length of the trailing run of class characters |
| Strings.TrimLeft | app.py:31 | the result is the suffix of the input after a run of class characters, and does not start with one |
| Strings.TrimRight | app.py:31 | the result is the prefix of the input before a run of class characters, and does not end with one |
| Strings.Strip | app.py:31 | the result is the slice right after the leading class run; everything after it is in the class; its length is the input's minus both runs; neither end is in the class; empty iff every character is in the class |
| Strings.StripIs | app.py:31 | the stripped string is the input from the end of the leading run to the start of the trailing run |
| Strings.StripIsTrims | app.py:31 | stripping is trimming the left, then the right |
| Strings.StripEmptyIff | app.py:31 | the stripped string is empty iff every character is in the class |
| Strings.StripAround | app.py:31 | stripping a string whose inner ends are outside the class strips only the two outer parts |
| Strings.StripKeeps | app.py:31 | stripping keeps every character outside the class, in order |
| Strings.ReplaceRuns | app.py:31 | empty iff the input is; first and last characters follow the input's; every class character is the replacement; no two class characters are adjacent |
| Strings.ReplaceRunsOfRun | app.py:31 | a non-empty run of class characters becomes exactly one replacement character |
| Strings.ReplaceRunsAppend | app.py:31 | the replacement works part by part wherever the cut does not fall inside a run |
| Strings.ReplaceRunsJoin | app.py:31 | a run of class characters between two non-class characters becomes one replacement character between the two parts, each replaced on its own |
| Strings.ReplaceRunsKeeps | app.py:31 | collapsing runs keeps the characters outside the class, in order |
| Strings.ReplaceRunsFixed | app.py:31 | a string whose class runs are already single replacement characters is unchanged |
| TextLines.FirstBreak | app.py:41 | the first line break, with none before it |
| TextLines.SplitLines | app.py:41 | at least one line, and no line contains a break |
| TextLines.SplitLinesRoundTrip | app.py:41 | there is one line more than there are breaks, and putting the breaks back between the lines gives the text |
| TextLines.SplitLinesAppend | app.py:41 | a text cut at a break splits into the lines before it followed by the lines after it |
| TextLines.NormalizeLine | app.py:41 | `re.sub(r"\s+", " ", ln.strip())`: a line normalises to empty iff it is blank, otherwise to a line with no outer whitespace and single spaces inside |
| TextLines.NormalizeChangesDoubleSpace | app.py:41 | a line with two whitespace characters in a row is changed by normalising |
| TextLines.NormalizeNoSpace | app.py:41 | a line without whitespace normalises to itself |
| TextLines.NormalizeJoin | app.py:41 | a whitespace run between two parts of a line becomes one space at that place, with each part normalised on its own |
| TextLines.NormalizeKeepsText | app.py:41 | normalising keeps every non-whitespace character of the line, in order |
| TextLines.NormalizeAll | app.py:41 | every kept line is normalised, and there are no more lines than input lines |
| TextLines.NormalizeAllAppend | app.py:41 | the comprehension works line by line: it distributes over concatenation |
| TextLines.NormalizeAllOne | app.py:41 | a single line is dropped when blank and otherwise kept normalised |
| TextLines.Lines | app.py:41 | every line is normalised and has no line break |
| TextLines.LinesAppend | app.py:41 | the lines of a text cut at a break are the lines of the part before followed by those of the part after |
| TextLines.LinesOneLine | app.py:41 | a text without a break gives no line when blank and otherwise its normalised self |
| TextLines.WordCount | app.py:54 | `len(s.split())` is zero exactly when the line is blank |
| TextLines.WordCountSplit | app.py:54 | a whitespace character separates words: the count of `x + c + y` is the count of `x` plus the count of `y` |
| TextLines.WordCountOneWord | app.py:54 | a non-empty string without whitespace is one word |
| TextLines.WordCountNormalize | app.py:41 | normalising a line keeps `len(line.split())` |
| Slug.AsciiOnly | app.py:30 | only ASCII characters remain; an all-ASCII text is unchanged; the letters and digits are kept |
| Slug.Dashed | app.py:31 | only letters, digits and single dashes, no dash at either end; the letters and digits of the text in order |
| Slug.Slugify | app.py:29-32 | the result is a slug; its letters and digits are the text's, lower-cased and in order, or the text has none and the result is exactly "destinatario" |
| Slug.SlugifyJoin | app.py:29-32 | two parts separated by a run of non-alphanumeric ASCII characters slugify to the parts' slugs joined by one dash |
| Slug.WordSlug | app.py:29-32 | a word of letters and digits slugifies to itself lower-cased |
| Slug.TwoWordSlug | app.py:29-32 | two such words with a separator slugify to "word1-word2", lower-cased |
| Slug.TwoWordExample | app.py:29-32 | "Ana Maria" slugifies to "ana-maria" |
| Slug.SlugifyTrimsEdges | app.py:29-32 | characters other than letters and digits before and after a text with alphanumeric ends do not change its slug |
| Slug.BulletExample | app.py:29-32 | "• Ana Maria" slugifies to "ana-maria": the bullet is dropped by the ASCII filter, the space by the dash strip |
| Slug.SlugifyFixesSlugs | app.py:29-32 | a string of slug shape is its own slug |
| Slug.SlugifyIdempotent | app.py:29-32 | slugifying a slug changes nothing |
| Recipient.DigitCount | app.py:49 | the count is the number of digits in the string |
| Recipient.DigitCountAppend | app.py:49 | digits are counted part by part |
| Recipient.HasBadWordIgnoresCase | app.py:51-52 | the bad-word test gives the same answer on the lower-cased line |
| Recipient.HasBadWordExtend | app.py:44-52 | a bad word in a part of a line rejects the whole line |
| Recipient.NoBadWordByLetters | app.py:44-52 | a line without any of the letters d, s, e, c, q, b, l has no bad word |
| Recipient.WindowEnd | app.py:47 | the window ends at min(i+6, n) |
| Recipient.FirstInWindow | app.py:47-55 | the first acceptable line of the window, none before it; none at all when it returns nothing |
| Recipient.WindowScan | app.py:45-55 | a pick lies in the window of a "destinat" line and is acceptable there |
| Recipient.FallbackScan | app.py:56-58 | the first line with two or more words, at most one digit and at most 64 characters; none when it returns nothing |
| Recipient.GuessFromLines | app.py:42-59 | the result is "destinatario" or one of the lines |
| Recipient.MarkerThenName | app.py:45-55 | a marker line followed by a line that passes the window test: that line is the name |
| Recipient.MentionsByPrefix | app.py:46 | a line that starts with "destinat" in any case is a marker line |
| Recipient.TwoWordsPass | app.py:49-55 | two whitespace-separated words without digits or bad-word letters, at most 64 characters, pass the window test |
| Recipient.MarkerThenNameExample | app.py:45-55 | the lines "DESTINATARIO", "Ana Maria" give the name "Ana Maria" |
| Recipient.GuessRecipient | app.py:34-59 | failed extraction gives "destinatario"; otherwise the loops return the window pick, then the fallback pick, then "destinatario" |
| Recipient.WindowScanFirst | app.py:45-55 | the window pick is the first acceptable line of the first window that has one; no pick means no window holds one |
| Recipient.GuessFromLinesResult | app.py:45-59 | a window pick is acceptable in its window, a fallback pick passes the fallback test, and "destinatario" comes back iff no window and no line qualifies |
| Recipient.DefaultIsOneWord | app.py:59 | the default name is a single word, so it can never be mistaken for a picked line |
| Recipient.InlineScan | app.py:157-161 | the pick is right after a "destinat" line and passes the test; no earlier marker is followed by a passing line |
| Recipient.InlineName | app.py:156-161 | the form's name is "destinatario" or one of the lines that passes the test |
| Recipient.InlineRecipient | app.py:155-161 | the loop returns the inline pick, or "destinatario" |
| Recipient.InlineNameResult | app.py:155-161 | the form's name is "destinatario" iff no marker line is followed by a passing line; otherwise it is such a following line |
| Recipient.InlinePickOpensWindow | app.py:157-161 | when the inline pick has no bad word, the full heuristic finds a window pick too |

## Left out

- Parsing, writing and text extraction of PDFs are not modelled. The document is a sequence of `Page` objects, and the extracted text is a parameter. A failed read is `None` for `guess_recipient_from_pdf_bytes` and the empty text for the form (app.py:150-153).
- The Streamlit user interface, the uploads, the download buttons and the timestamp in the file names are not modelled. The form's default parameters appear only in `Geometry.FormDefaultsExample`.
- Pages.BuildCropAndFit returns the debug values as a `Debug` record, not the formatted string with two or six decimals.
- Floating-point rounding: the model computes over exact reals.
- Geometry.Affine: only diagonal matrices are modelled, which is all that `translate` and `scale` produce. The effect of a matrix on the drawn content is recorded as the list of added transformations and not rendered.
- Slug.Slugify: the Unicode NFKD decomposition before the ASCII filter is not modelled. The model drops every non-ASCII character, so an accented letter is lost rather than kept without its accent.
- Recipient.DigitCount: counts only the ASCII digits `0`-`9`. Python's `isdigit` also accepts other Unicode digits.
- Strings.Lower: lower-cases only ASCII letters. This is exact for the searches, which look for ASCII words, but not for `lower()` on other letters.
- TextLines.SplitLines: treats "\r\n" as two breaks and yields an empty last line after a final break. Python's `splitlines` does neither, but the extra lines are blank and the filter drops them, so `TextLines.Lines` is the same. For the same reason, `SplitLines("")` is `[""]` where `"".splitlines()` is `[]`.
- A degenerate rectangle (inverted, or entirely off the page) is passed through as the source does. `Geometry.ClampOrderedIff` states when the clamped box is inverted. For a zero-size crop the scale is 1.0 as in the source; `Geometry.FitMapInCanvas` covers only crops of positive size.
- The docstring of `guess_recipient_from_pdf_bytes` speaks of the name after "DESTINAT". The code goes on to later marker lines when a window yields nothing, and the model follows the code.
