# Certificate generator: a Dafny model

This project models the document-generation logic of a browser form that fills a
fixed PDF certificate template. For each student it draws three black text
overlays on the template's first page: the student's name, the ceremony date
and a body text. The name is shrunk one size at a time until it fits a width of
400 units; the shrinking stops at size 10, and a base size of 10 or less is
used as it is. The date is rewritten from the ISO
`YYYY-MM-DD` form to `DD/MM/YYYY`. Fonts are chosen by identifier, and an
unknown identifier falls back to DejaVuSans. The preview fills the template for
the first comma-separated name. The download fills it once per name, in order,
into `certificado_<name>.pdf`.

Modules, one per concern of `src/Certificate.js`:

- `Text` (text.dfy): JavaScript's `split` on a one-character separator, the
  matching `Join`, and their round-trip lemmas. Both the date and the name list
  are split with it.
- `Dates` (dates.dfy): `FormatDateToBrazilian`, written as the source does it.
- `Fonts` (fonts.dfy): `ResolveFont`, the one mapping behind both font `switch`
  blocks, whose cases are identical.
- `FontFit` (font_fit.dfy): the shrink-to-fit loop as a method
  (`AdjustFontSizeForName`) and as a function (`FitSize`). The font's width is
  an arbitrary `int -> real` function, so nothing assumes that a smaller size is
  narrower.
- `Certificate` (certificate.dfy): `GeneratePdfForStudent`, the preview
  (`HandleSubmit`) and the batch download (`DownloadPdf`). A generated PDF is
  the list of overlays drawn on the first page. Font metrics and asset loading
  are parameters: `metrics(file, text, size)` gives a width, and `loads(path)`
  says whether the asset at `path` was fetched and parsed during one
  generation. Every generation fetches its assets afresh, so the batch download
  takes one such outcome per pass.

Two behaviours are kept exactly as the code has them:

- A date with the wrong number of `-` segments is not rejected. A missing
  segment prints as `undefined` (what a JavaScript template literal does with a
  missing destructured element), and segments after the third are dropped.
- One failed generation during a download ends the batch. The source's `await`
  rethrows out of the `for` loop, and the files offered before the failure stay
  offered (`Certificate.PartialBatchExample` shows one file offered and then an
  abort).

## Model

| member | source | states |
|---|---|---|
| `Text.Split` | src/Certificate.js:171 | splitting always gives at least one segment, so the preview's `[0]` always exists |
| `Text.JoinSplit` | src/Certificate.js:179 | joining the segments of a split with its separator gives back the original string, so no character of the name list is lost or added |
| `Text.SplitSegmentsHaveNoSeparator` | src/Certificate.js:179 | no segment contains the separator |
| `Text.SplitLength` | src/Certificate.js:179-180 | there is one segment more than there are separators, so a batch has one file per comma plus one, empty segments included |
| `Text.SplitJoin` | src/Certificate.js:34 | splitting a join of separator-free segments gives back exactly those segments |
| `Dates.FormatDateToBrazilian` | src/Certificate.js:33-36 | when the date has at least three segments free of `/`, splitting the result on `/` gives the first three segments reversed; with fewer than three segments the result starts with `undefined` |
| `Dates.FormatThreeSegments` | src/Certificate.js:33-36 | a date that splits into `[y, m, d]` formats as `d/m/y`, which is the join of `[d, m, y]` with `/` |
| `Dates.FormatReversesSegments` | src/Certificate.js:33-36 | splitting the formatted date on `/` gives the input's three segments in reverse order |
| `Dates.IsoDateToBrazilian` | src/Certificate.js:33-36 | an ISO `YYYY-MM-DD` date becomes the day, the month and the year with the same digits, in `DD/MM/YYYY` form |
| `Dates.FormatExample` | src/Certificate.js:33-36 | `2023-11-07` becomes `07/11/2023` |
| `Dates.FormatEmptyDate` | src/Certificate.js:33-36 | the empty date formats as `undefined/undefined/` |
| `Dates.FormatTwoSegments` | src/Certificate.js:34-35 | a two-segment date is not rejected: the missing day prints as `undefined` |
| `Dates.FormatIgnoresExtraSegments` | src/Certificate.js:34 | only the first three segments affect the result |
| `Fonts.ResolveFont` | src/Certificate.js:47-82 | every identifier resolves to one of the five font files; a catalog identifier gives its own file, and any other gives `DejaVuSans.ttf` rather than an error |
| `Fonts.UnknownFontIsDefault` | src/Certificate.js:86-117 | an unknown identifier for the body font resolves exactly as `DejaVuSans` does |
| `Fonts.KnownFontsDistinct` | src/Certificate.js:47-75 | distinct catalog identifiers select distinct files |
| `Fonts.CatalogFiles` | src/Certificate.js:86-111 | the five switch cases reach exactly the five font files |
| `FontFit.FitSize` | src/Certificate.js:124-136 | the fitted size is at most the initial size; it equals the initial size when that is 10 or less or already fits; it is at least 10 when the initial size is; on exit the name fits or the size is at the floor; every size above it up to the initial size was too wide |
| `FontFit.AdjustFontSizeForName` | src/Certificate.js:124-136 | the loop returns the size `FitSize` describes: never larger than the start, the floor is inclusive, unchanged when the start fits, the exit condition, and every skipped size was wider than 400 |
| `FontFit.FitSizeIsLargestFitting` | src/Certificate.js:129-133 | if some size in `[10, initial]` fits, the fitted size fits and is the largest such size |
| `FontFit.FitSizeFloor` | src/Certificate.js:129-131 | if no size in `[10, initial]` fits, size 10 is used despite the overflow |
| `FontFit.FitSizeUnique` | src/Certificate.js:124-136 | the loop's contract has exactly one solution, so it determines the result |
| `FontFit.FitSizeIdempotent` | src/Certificate.js:129 | running the search again from the chosen size keeps that size |
| `Certificate.GeneratePdfForStudent` | src/Certificate.js:32-168 | generation succeeds exactly when the template and both resolved fonts load; failures are reported in fetch order: the template first, then the name font, then the body font; a font failure names a selected font file that did not load; a success draws three overlays, the first being the student's name |
| `Certificate.NameOverlayFits` | src/Certificate.js:138-150 | the name is drawn in the resolved name font at the size `FitSize` gives: not above the base size, unchanged when the base is 10 or less, not below 10 when the base is at least 10, fitting or at the floor, and the largest such size |
| `Certificate.OnlyOwnName` | src/Certificate.js:144-165 | two students' certificates differ only in the name overlay's text and size; each shows only its own name |
| `Certificate.DateAndBodyOverlays` | src/Certificate.js:152-165 | the date overlay holds the ISO date in `DD/MM/YYYY` form at size 21 in the page's standard font; the body overlay holds the body text at size 16 in the resolved body font |
| `Certificate.OverlayLayout` | src/Certificate.js:144-165 | for any field values, all three overlays are black at x = 99; the name is at y = 180, the date at y = 82 and the body at y = 340; the date overlay holds the reformatted date whatever the date string is, at size 21 in the page's standard font; the body is at size 16 in the resolved body font |
| `Certificate.EmptyDateOverlay` | src/Certificate.js:152-157 | a cleared date field still yields a certificate, whose date reads `undefined/undefined/` |
| `Certificate.FileNameFor` | src/Certificate.js:188 | the file name is `certificado_`, then the student's name unaltered, then `.pdf`, so the name can be read back out of it |
| `Certificate.FileNameInjective` | src/Certificate.js:188 | distinct names give distinct file names |
| `Certificate.HandleSubmit` | src/Certificate.js:170-176 | there is no preview exactly when the first segment is empty; otherwise the preview holds the first segment's certificate or its load error |
| `Certificate.PreviewUsesFirstNameOnly` | src/Certificate.js:171 | whatever follows the first comma does not affect the preview |
| `Certificate.LoadedPrefix` | src/Certificate.js:180-181 | the number of passes, from the first, whose fetches all succeed before the first pass whose fetches do not |
| `Certificate.DownloadPdf` | src/Certificate.js:178-199 | one download per segment, in order, for as many passes as load their assets before the first that does not; each is named `certificado_<segment>.pdf` and holds that segment's certificate, generated with that pass's fetches, with that name overlaid; the batch completes exactly when every segment was produced, it completes whenever every pass loads, and an abort reports the error of the first pass that failed |
| `Certificate.PartialBatchExample` | src/Certificate.js:178-199 | for `Ana,Beto` with fetches failing only on the second pass, `certificado_Ana.pdf` is offered and the batch then aborts with the second pass's error |
| `Certificate.ThreeNameBatch` | src/Certificate.js:179 | the batch `Ana,Beto,Cid` splits into exactly those three names, in order |
| `FontFit.DoubleDecrement` | src/Certificate.js:131 | JavaScript's rounded `adjustedSize -= 1` on an integer double stays a double and moves by at most 2; it is exact up to 2^53 |
| `FontFit.SourceLoop` | src/Certificate.js:129-135 | the loop as the source runs it on doubles, for a bounded number of steps: when it returns, the size is at most the base, and the name fits or the size is at the floor |
| `FontFit.DoubleDecrementStalls` | src/Certificate.js:131 | from 2^53 + 4 on, the rounded decrement stops changing the size after at most one step |
| `FontFit.HugeBaseSizeNeverReturns` | src/Certificate.js:129-133 | with base size 2^54 and a name too wide at that size, the source's loop is still running after any number of steps |
| `FontFit.SourceLoopAgreesBelow2Pow53` | src/Certificate.js:129-135 | for base sizes up to 2^53, the source's loop returns the size `FitSize` gives |

## Left out

- React state (`useState`), the JSX form and its widgets: UI. The form's values are a `FieldValues` record passed to each operation.
- Fetching the template and the fonts, `PDFDocument.load`, `registerFontkit` and `embedFont`: network I/O and a foreign library. They are reduced to the `loads` parameter, which says whether each asset's path loads in one generation; the batch takes one per pass.
- `drawText` and `save`: a foreign library. A generated PDF is the sequence of overlays drawn on the first page; serialization to bytes is not modelled.
- `widthOfTextAtSize`: the library's floating-point font metrics. It is kept abstract as the `metrics` parameter.
- `parseInt(fontSize)` and its `NaN` result for non-numeric input: the base size is taken as an `int`.
- FitSize, AdjustFontSizeForName: the base size is assumed to be an integer exactly representable as a JavaScript number, and at most 2^53, where `adjustedSize -= 1` is exact. From 2^53 + 4 on, the source's loop does not end for a name too wide at the size where the decrement sticks; `FitSize` and `AdjustFontSizeForName` always end. The source's behaviour there is modelled separately by `SourceLoop`; see Findings.
- The pdf.js canvas preview, the Blob and object-URL download through an anchor click, and the one-second `setTimeout` between downloads: DOM, I/O and timing. `DownloadPdf` returns the files it would offer; `HandleSubmit` returns the certificate it would render.
- `savedPDFBytes`: a variable recreated on every render that holds the last generated certificate. It is read right after each write: at src/Certificate.js:174 to render the preview and at src/Certificate.js:183 to build the download's Blob. Its only other read, at src/Certificate.js:286, passes it as an argument that `downloadPDF` does not take. It is not modelled as state.
- Each generation's `loads` gives one outcome per path, so both font switches fetching the same file in one generation are assumed to get the same outcome.
- `FitSize`: the fitted size is not proved to be non-increasing in the name's length, because that needs monotone font metrics, which the model deliberately does not assume.
- A rejection of malformed dates: the source has no date error path, so none is modelled.
- src/App.js: router wiring only; it has no logic of its own.

## Findings

| source | as written | input that shows it | evidently intended | confidence | as-written member | corrected member |
|---|---|---|---|---|---|---|
| src/Certificate.js:129-133 | `adjustedSize -= 1` on a JavaScript number; above 2^53 the difference rounds back to the same value, so the loop's guard never changes | base size `18014398509481984` (2^54), or any base above 2^53 + 2, for a name wider than 400 at that size: the page hangs | the loop ends after at most `base - 10` steps at the fitted size; the difference is in principle only, since for a base near 2^53 that many width computations would also never finish in practice | low: follows from the rounding of doubles; not executed | `FontFit.HugeBaseSizeNeverReturns` (with `FontFit.SourceLoop`, `FontFit.DoubleDecrement`) | `FontFit.FitSize` and `FontFit.AdjustFontSizeForName`, which step on exact integers and always end; `FontFit.SourceLoopAgreesBelow2Pow53` shows they agree with the source up to 2^53 |

