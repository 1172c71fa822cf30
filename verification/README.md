# pdficin: a Dafny model of the HTML-to-A4 core

pdficin turns an uploaded HTML page into a one-page A4 PDF. This project
models the decision logic of that conversion and proves properties of it:

- **Sanitizer** (`cleanHtml`, module `Sanitizer`, on top of the JavaScript
  string operations in `Text`). A fixed override style block goes before
  the first `</head>`. A fixed fit script goes before the first `</body>`
  of the text the first replacement produced. Without a `</head>`, both
  blocks go in front. The proofs cover where each block lands, that
  cutting the blocks back out gives the input again, the output length,
  and where the first `</head>` and `</body>` of the output lie.
- **Client fit routine** (`fitToPage` inside the injected script, module
  `FitRoutine`). It works on the body's inline style and on a layout
  function that returns the body's scroll height. It is also modelled run
  several times in a row, as the script's `onload` handler does.
- **Server scale** (module `Fit`): the content height is `max(body, root)`
  scroll height, the fit scale is `1123/h` above one page, and the value
  passed to the export is floored at 0.1. Module `Geometry` holds the A4
  constants: ISO 216 gives 210 x 297 mm, which is 794 x 1123 px at 96
  pixels per inch.
- **Upload page** (module `Upload`): the `isHtml` acceptance test, the
  page state written by `handleFile`, and the name the exported PDF gets.
- **Server route** (module `PdfRoute`). The `POST` handler is a state
  machine whose browser is an `Engine` record, which says how each call
  turns out. The machine emits the calls the handler makes. It is proved
  equal to a phase-free reference description, and the promised
  properties are then proved about that description: the 400 guard, the
  launch failure, closing the browser, the 200 and 500 responses, and the
  export scale.

Scales are exact rationals (`real`). Strings are `seq<char>`. Bytes are
`seq<bv8>`.

## Model

| member | source | states |
|---|---|---|
| Text.IndexOf | app/page.tsx:65-66 | `includes` is true exactly when `indexOf` finds something, and what it finds is the first occurrence |
| Text.ReplaceFirst | app/page.tsx:66 | `replace` with a string pattern changes nothing when the pattern is absent; otherwise it swaps only the first occurrence, keeping the text before and after it |
| Text.ReplaceFirstIsInsert | app/page.tsx:66 | replacing the first `p` by `b + p` is splicing `b` in just before the first `p` |
| Text.IndexOfInsert | app/page.tsx:66 | splicing in a block that cannot take part in an occurrence keeps the first occurrence, moved past the block when it came after the splice point |
| Text.JoinAvoids | app/page.tsx:18-63 | a block whose lines each lack a character of a closing tag cannot contain that tag, even across line boundaries |
| Sanitizer.BlocksInjectable | app/page.tsx:18-63 | neither block contains `</head>` or `</body>`, neither can form one with the text around it, and neither holds a `$` (so `replace` inserts it literally) |
| Sanitizer.InjectBlocks | app/page.tsx:65-68 | without `</head>`, the output is the two blocks followed by the untouched input; in every case the output is at least the style block longer |
| Sanitizer.CleanHtml | app/page.tsx:17-69 | the same for the page's own blocks: without `</head>`, the input is a suffix and the prefix is exactly style + script |
| Sanitizer.StyleStepInserts | app/page.tsx:66 | the first replacement puts the style block just before the first `</head>` and changes nothing else |
| Sanitizer.StyleStepMovesTag | app/page.tsx:66 | after the first replacement, the first `</head>` or `</body>` is the input's own, moved past the style block if it came after it |
| Sanitizer.InjectFollowsPlacement | app/page.tsx:65-68 | the two chained replacements put the blocks exactly where the first `</head>` and first `</body>` of the input say, in either order of the two tags |
| Sanitizer.CleanHtmlFollowsPlacement | app/page.tsx:65-68 | `cleanHtml` puts its own style and script blocks exactly where the input's first `</head>` and first `</body>` say |
| Sanitizer.StripApply | app/page.tsx:65-68 | cutting the injected blocks out of the output gives the input back, and the output is longer by exactly the blocks injected |
| Sanitizer.CleanHtmlRecoversRaw | app/page.tsx:65-68 | for `cleanHtml`: deleting the injected blocks recovers the input exactly, and the length grows by exactly the blocks injected |
| Sanitizer.StyleOnlyWithoutBody | app/page.tsx:66 | with `</head>` and no `</body>`, the fit script is not injected; the output is the input plus the style block before the first `</head>` |
| Sanitizer.InjectPrecedesFirstTags | app/page.tsx:65-66 | in the output, the style block ends exactly where the first `</head>` starts, and the script block ends exactly where the first `</body>` starts when there is one |
| Sanitizer.CleanHtmlPrecedesFirstTags | app/page.tsx:65-66 | the same for `cleanHtml`'s own blocks |
| Sanitizer.TagsDiffer | app/page.tsx:66 | the first `</head>` and the first `</body>` of a text never overlap, so the two replacements cannot interfere |
| Sanitizer.CleaningTwiceAddsBlocks | app/page.tsx:17-69 | `cleanHtml` is not idempotent: cleaning cleaned text adds another style block |
| Geometry.MmToPx | app/api/pdf/route.ts:30-32 | converting millimetres to pixels at 96 per inch rounds to the nearest pixel |
| Geometry.MmToPxIsNearest | app/api/pdf/route.ts:30-32 | no other whole pixel count is closer to the exact length |
| Geometry.A4PixelsAreA4Millimetres | app/api/pdf/route.ts:30-32 | 794 x 1123 px is the 210 x 297 mm A4 sheet at 96 pixels per inch |
| Fit.ContentHeight | app/api/pdf/route.ts:23-28 | the measured height is at least each scroll height and equal to one of them |
| Fit.FitScale | app/api/pdf/route.ts:32-33 | a height up to 1123 gives scale 1; a taller one gives the scale with scale x height = 1123, strictly between 0 and 1 |
| Fit.PdfScale | app/api/pdf/route.ts:39 | the scale passed on always lies in [0.1, 1]; it is the fit scale up to 11230 px and the 0.1 floor above that |
| Fit.FitScaleAtLeastFloor | app/api/pdf/route.ts:33-39 | the fit scale is at least 0.1 exactly when the height is at most ten pages |
| Fit.PdfScaleNonIncreasing | app/api/pdf/route.ts:33-39 | taller content never gets a larger export scale |
| Fit.ScaledContentFits | app/api/pdf/route.ts:33-40 | the scaled content fits the single exported page exactly when the height is at most 11230 px; above that, the floor pushes the rest past page 1 |
| FitRoutine.Reset | app/page.tsx:44-45 | the reset clears inline transform and origin and keeps the width |
| FitRoutine.FitToPage | app/page.tsx:43-54 | a transform is set exactly when the height measured after the reset exceeds 1123; then factor x height = 1123, the factor is in (0, 1), the origin is top-left and width% x factor = 100; otherwise transform and origin are cleared and the width is unchanged |
| FitRoutine.FactorIsServerFitScale | app/page.tsx:47-49 | the client's factor is the server's fit scale for the same height, without the 0.1 floor, so it is smaller than the server's above ten pages |
| FitRoutine.PriorTransformIgnored | app/page.tsx:44-46 | because the reset comes before the measurement, any transform and origin the body had make no difference |
| FitRoutine.ResetAfterFit | app/page.tsx:44-52 | a run changes the reset style only in its width |
| FitRoutine.LastMeasurementWins | app/page.tsx:55-61 | after several runs under width-blind layouts, transform and origin are what the last run alone sets; the whole style is too when the last run measures tall or no run does |
| FitRoutine.OnLoadFollowsLastRun | app/page.tsx:55-61 | after the three timed runs of `onload`, the body carries the transform and origin of the 2500 ms run |
| FitRoutine.FitIdempotent | app/page.tsx:43-54 | running the routine again under the same width-blind layout changes nothing |
| FitRoutine.WidthOutlivesTransform | app/page.tsx:44-52 | width is not part of the reset: a run measuring tall then one measuring short leaves no transform and the first run's width, `100/factor` percent of the first run's fit factor |
| Upload.EndsWithExtension | app/page.tsx:88-90 | a name ends in `.e` exactly when `e` is its extension (the text after its last dot) |
| Upload.AcceptedByExtensionOrType | app/page.tsx:88-92 | a file is accepted exactly when its case-sensitive extension is `html` or `htm`, or its MIME type is `text/html` |
| Upload.UpperCaseNeedsMime | app/page.tsx:88-91 | `REPORT.HTML` is accepted only when the browser reports `text/html` |
| Upload.Select | app/page.tsx:92-94 | a rejected file leaves the state as it was; an accepted one records its name at once and leaves the content alone |
| Upload.Loaded | app/page.tsx:96-99 | when a read completes, the content becomes the text read and the cleaned content becomes `cleanHtml` of it; the name stays |
| Upload.HandleFile | app/page.tsx:88-99 | a rejected file changes nothing; an accepted one sets name, content and cleaned content and keeps the state consistent |
| Upload.HandledFilesStayConsistent | app/page.tsx:94-99 | after any sequence of files, the cleaned text is `cleanHtml` of the content, and cutting the blocks out of it gives the content back |
| Upload.HandleFileIdempotent | app/page.tsx:88-99 | handling the same file twice is handling it once |
| Upload.CrossedReadsMismatch | app/page.tsx:94-101 | two reads completing in the opposite order leave the second file's name beside the first file's text |
| Upload.MatchFrom | app/page.tsx:138 | the regular expression's leftmost match from a start position: it matches there, and nowhere before it |
| Upload.StripByPattern | app/page.tsx:138 | `replace(/\.(html\|htm)$/i, "")` never lengthens the name |
| Upload.StripExtension | app/page.tsx:138 | the direct description keeps a prefix of the name, shorter by 0, 4 or 5 characters |
| Upload.ExtensionsExclusive | app/page.tsx:138 | no name ends in both `.html` and `.htm`, whatever the case |
| Upload.PatternStripsExtension | app/page.tsx:138 | the leftmost-match replacement removes exactly one trailing `.html`/`.htm`, in any case, and nothing else |
| Upload.PdfName | app/page.tsx:138-139 | the PDF name always ends in `.pdf` and has something before it |
| Upload.PdfNameBase | app/page.tsx:138-139 | the base of the name is never empty: it is the stripped name, or `belge` when stripping leaves nothing |
| Upload.PdfNameKeepsOtherNames | app/page.tsx:138-139 | a name without either extension is kept whole |
| Upload.PdfNameStripsOne | app/page.tsx:138-139 | exactly one extension comes off, so `a.html.HTML` becomes `a.html.pdf` |
| Upload.PdfNameDefault | app/page.tsx:138-139 | an empty name, or a name that is only an extension, gives `belge.pdf` |
| PdfRoute.ExportOptions | app/api/pdf/route.ts:35-41 | the export is A4, page 1 only, with backgrounds printed and zero margins, at the floored fit scale for the measured height, which lies in [0.1, 1] |
| PdfRoute.CatchOutcome | app/api/pdf/route.ts:51-53 | the `catch` answers exactly when its `close` succeeds, and then the answer is 500 with the caught error's text |
| PdfRoute.Next | app/api/pdf/route.ts:4-55 | every step of the handler moves strictly towards its end, so the handler always finishes |
| PdfRoute.TryingFollowsReference | app/api/pdf/route.ts:16-53 | from any call of the `try` block, the handler makes every call up to and including the first that throws, then the `catch`; if none throws, it makes them all and answers 200 |
| PdfRoute.PostFollowsReference | app/api/pdf/route.ts:4-55 | for every body and every browser behaviour, the handler's outcome and calls are the reference description's |
| PdfRoute.NoHtmlLaunchesNothing | app/api/pdf/route.ts:5-9 | a missing or falsy `html` gets 400 `No HTML` and no browser call is made |
| PdfRoute.UnreadableBodyRejected | app/api/pdf/route.ts:5 | a body that is not JSON, or is `null`, makes the handler throw before any browser call |
| PdfRoute.LaunchFailureClosesNothing | app/api/pdf/route.ts:11-16 | a failed launch is thrown out of the handler; the launch is the only call and nothing is closed |
| PdfRoute.CallsOnceLaunched | app/api/pdf/route.ts:11-53 | once launched, the calls are all the `try` block's calls, or those up to the failing one followed by the `catch`'s `close` |
| PdfRoute.BrowserAlwaysClosed | app/api/pdf/route.ts:16-53 | once launched, the last call is always `close`; it happens once, or twice exactly when the `try` block's own `close` throws |
| PdfRoute.SuccessExactlyWhenAllSucceed | app/api/pdf/route.ts:35-50 | 200 comes exactly when every call succeeds; it carries the exported bytes, `application/pdf` and `filename=belge.pdf`, after all calls with the single `close` last |
| PdfRoute.FailureAnswers500 | app/api/pdf/route.ts:51-53 | when a call in the `try` throws and the browser closes, the answer is 500 with that call's error text and no PDF bytes |
| PdfRoute.ExportScaleInRange | app/api/pdf/route.ts:33-39 | any export call uses the scale for the measured height, which lies in [0.1, 1] |
| PdfRoute.ContentIsPostedHtml | app/api/pdf/route.ts:5-20 | the page is loaded with the posted `html` exactly as posted (the server does not clean it), waiting for `networkidle0` with a 15000 ms timeout |
| PdfRoute.InTryCalls | app/api/pdf/route.ts:16-41 | any call besides `launch` and `close` is one of the `try` block's calls, made after a successful launch with every earlier call succeeding |

## Left out

- The CSS rules of the override block and the JavaScript text of the fit
  script are modelled as opaque constants. Each block keeps its frame (the
  leading line break, the opening and closing tags, the trailing
  indentation). What lies between the tags is one abbreviated comment line.
  The properties proved need only that each block is `Injectable`. That
  means it holds no `$`, and for each of `</head>` and `</body>` it is
  non-empty, holds no occurrence of the tag, and neither starts nor ends
  with a character of the tag. Together these keep a block from forming
  or splitting a tag with the text around it. The source's full blocks
  meet this too: they start with a line break, end in spaces, and each of
  their lines lacks some character of each tag.
- The fit routine's behaviour is modelled separately (`FitRoutine`), not
  by interpreting the script text.
- Text.ReplaceFirst: does not model `$` replacement patterns of
  `String.replace`, because neither replacement string in the source
  holds a `$`. The function requires a `$`-free replacement.
- FitRoutine.LastMeasurementWins: states the outcome only for layouts in
  which the inline width does not change the body's height. That is the
  case the override stylesheet sets up by pinning the width with
  `!important`. `WidthOutlivesTransform` shows what happens otherwise.
- JavaScript strings are UTF-16 code units, and the model's `char` is a
  Unicode scalar value. None of the modelled operations depends on the
  difference. The case-insensitive match of `.html`/`.htm` folds ASCII
  letters only. Without the `u` flag, JavaScript folds no other character
  onto those letters.
- IEEE floating point: scales and widths are exact rationals. Formatting
  numbers into the `scale(...)` and `%` strings is modelled as the number.
- The layout engine that produces `scrollHeight` is a parameter (a
  function from inline style to height, or measured heights given to the
  engine record).
- React state and hooks, drag-and-drop, the reset button and JSX
  rendering are left out. The file reader's asynchronous read is modelled
  as two events: the name recorded at once (`Select`), then the content on
  load (`Loaded`).
- The on-screen preview scale (app/page.tsx:71-84) is left out. It affects
  only what a person sees, not the export.
- html2canvas rasterisation, JPEG encoding, jsPDF page assembly and
  `pdf.save` (app/page.tsx:106-146) are left out, except the name
  computation. They are foreign libraries.
- Puppeteer internals (viewport, media emulation, network-idle waiting,
  the timeout) are left out. Each call is an abstract step that succeeds
  or throws, and is recorded with its arguments.
- The timing of the three `setTimeout` runs (300, 1000, 2500 ms) is
  modelled only as their order. The chaining of a pre-existing
  `window.onload` is left out.
- The framework is represented only by its interface. `NextResponse.json`
  is modelled as a JSON content type and an error payload. A handler that
  throws is modelled as a `Rejected` outcome; the framework turns that
  into a generic 500, which is not modelled.
- app/layout.tsx holds only metadata and font wiring and is not part of
  this model.
- Behaviour of the code worth knowing, which the model keeps:
  - A `setContent` timeout throws inside the `try` and gives a 500. It is
    not a recoverable condition that proceeds with partial content.
  - The browser is launched with `--no-sandbox`.
  - The server does not clean the posted HTML (`ContentIsPostedHtml`).
  - The browser is not closed exactly once on every path. A throwing
    `close` in the `try` is followed by a second `close` in the `catch`.
  - `cleanHtml` is not idempotent (`CleaningTwiceAddsBlocks`).
