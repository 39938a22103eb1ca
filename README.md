# DoubtSolver: a verified model of its session flow

DoubtSolver is a single-page front end. A student picks a photo of a
homework question. A hosted generative model extracts the question text.
The student confirms or edits it. The model is then asked for a
step-by-step explanation that ends in a `KEYWORDS:` line. The results
screen shows the explanation and three placeholder video suggestions.

This project models the logic behind that flow and proves properties about it:

- `Types` (types.ts): the `AppStep` enum and the `YouTubeVideo` and
  `SolutionResult` records, as datatypes.
- `JsString`: the JavaScript string operations the code relies on:
  `split` with a string separator, and `trim` with ECMAScript's whitespace
  set. `IndexOfFrom` models the search for the next occurrence that
  ECMAScript's `split` performs internally; the code never calls `indexOf`.
  Each is stated against an independent definition.
  `split` is tied to "occurs at" and to `join`. `trim` is tied to the
  slice it keeps, and that slice is shown to be unique.
- `GeminiService` (services/geminiService.ts):
  - the `response.text || ""` fallback;
  - the parse of the solver reply into explanation and keywords;
  - the mock video list.
  The hosted model is not modelled: its reply text is an input.
- `App` (App.tsx): the seven `useState` fields as the fields of a
  `Session` class, and the event handlers as methods.
  - Each async handler (`triggerOCR`, `handleSolve`) is split into a
    Start method (before its `await`) and a Complete method. The Complete
    method takes the provider's outcome as a parameter: answered or rejected.
  - A ghost field `pending` records which call is outstanding. For a solve,
    it also records the question that the handler's closure captured.
    Completions use that captured question, as the closure does.
  - The object invariant `Valid()` is preserved by every method. It says:
    - CROPPING is never entered;
    - the edit screen always has an image;
    - the results screen always has results;
    - `loading` is true exactly while a provider call is outstanding.
  - Client methods at the end run whole sessions: a successful round trip,
    an example reply in the prompted format, a failed extraction, a failed
    solve, and a solve that completes after the user has edited the text
    and gone back.

The solver reply is parsed with `split('KEYWORDS:')`, which splits at
every sentinel, and only piece 1 is kept. So with two sentinels the
keywords are the text between them and the rest is dropped
(`ParseRepeatedSentinel`).

## Model

| member | source | states |
|---|---|---|
| `Types.StepName` | types.ts:15-20 | each step's string value reads back as that step (`StepFromName`) |
| `Types.StepFromNameInverse` | types.ts:15-20 | a string that reads as a step is that step's value, so only the four enum values are steps |
| `Types.StepNamesDistinct` | types.ts:15-20 | distinct steps carry distinct string values |
| `JsString.OccursInSlice` | services/geminiService.ts:32 | an occurrence inside a slice is an occurrence in the whole text, shifted by the slice's start, and conversely |
| `JsString.IndexOfFrom` | services/geminiService.ts:32 | the search from a position returns the first occurrence at or after it, with none in between; `None` means there is none at or after it |
| `JsString.IndexOfNone` | services/geminiService.ts:32 | the search from 0 finds nothing exactly when the separator does not occur |
| `JsString.IndexOfFromFinds` | services/geminiService.ts:32 | when the text from a position up to an occurrence is free, the search from that position returns that occurrence (the separator's first character does not recur in it) |
| `JsString.IndexOfFromMisses` | services/geminiService.ts:32 | when the rest of the text is free, the search returns nothing |
| `JsString.SplitFrom` | services/geminiService.ts:32 | the pieces from a position, at least one; `SplitFromJoin` and `SplitFromPiecesAreFree` fix them as the free texts between occurrences |
| `JsString.Split` | services/geminiService.ts:32 | `s.split(sep)`, at least one piece (also used at services/geminiService.ts:46 and App.tsx:36); `SplitJoin`, `SplitPiecesAreFree` and `SplitSingle` fix its pieces |
| `JsString.SplitFromJoin` | services/geminiService.ts:32 | the pieces from a position, joined with the separator, give back the text from that position |
| `JsString.SplitJoin` | services/geminiService.ts:32 | split loses nothing: joining the pieces with the separator gives back the input |
| `JsString.SplitFromPiecesAreFree` | services/geminiService.ts:32 | no piece from any position contains the separator |
| `JsString.SplitPiecesAreFree` | services/geminiService.ts:32 | no piece produced by split contains the separator |
| `JsString.SplitSingle` | services/geminiService.ts:32 | split yields a single piece exactly when the separator does not occur |
| `JsString.SplitAtFirst` | services/geminiService.ts:32 | after a separator-free prefix, piece 0 is that prefix and the remaining pieces start right after the separator |
| `JsString.PieceEndsAtOccurrence` | services/geminiService.ts:32 | the piece starting at a position ends at the next occurrence when the text in between is free |
| `JsString.PieceRunsToEnd` | services/geminiService.ts:32 | the piece starting at a position is the last one, running to the end of the text, when the rest is free |
| `JsString.SplitOnce` | services/geminiService.ts:32 | one separator between two free texts gives exactly those two pieces |
| `JsString.SplitTwice` | services/geminiService.ts:32 | two separators after free texts give those texts as pieces 0 and 1, whatever follows |
| `JsString.ContainsChar` | App.tsx:36 | a one-character separator occurs exactly when that character is in the text |
| `JsString.FirstPieceOnChar` | services/geminiService.ts:46 | splitting on one character, piece 0 is the prefix up to that character's first occurrence, or the whole string |
| `JsString.SkipForward` | services/geminiService.ts:34 | the first non-whitespace position at or after the start, with only whitespace skipped |
| `JsString.SkipBackward` | services/geminiService.ts:34 | the end of the last non-whitespace character, with only whitespace skipped from the end |
| `JsString.Trim` | services/geminiService.ts:34 | the trimmed string has no leading or trailing whitespace |
| `JsString.TrimSlice` | services/geminiService.ts:34 | trim keeps a contiguous slice and removes only whitespace on either side of it |
| `JsString.TrimUnique` | services/geminiService.ts:34 | whitespace + core + whitespace trims to exactly that core, when the core has no edge whitespace |
| `JsString.TrimAllWhitespace` | services/geminiService.ts:35 | a string made only of whitespace trims to "" |
| `JsString.TrimIdempotent` | services/geminiService.ts:34 | trimming twice gives the same result as trimming once |
| `JsString.TrimKeepsFree` | services/geminiService.ts:34 | trimming never creates an occurrence of the separator |
| `GeminiService.ResponseText` | services/geminiService.ts:17 | a missing reply text reads as ""; a present one is kept as is (the same fallback is used at line 31) |
| `GeminiService.GetStepByStepSolution` | services/geminiService.ts:31-36 | the keywords are either the question untouched or a trimmed text free of `KEYWORDS:`; the parse of every reply shape is fixed by the `Parse*` lemmas below |
| `GeminiService.ExplanationIsClean` | services/geminiService.ts:31-36 | for every reply, the explanation never contains `KEYWORDS:` and has no leading or trailing whitespace |
| `GeminiService.SplitWithoutSentinel` | services/geminiService.ts:32 | a text without the sentinel splits into itself alone |
| `GeminiService.ParseWithoutSentinel` | services/geminiService.ts:32-35 | without the sentinel, the explanation is the whole text trimmed and the keywords are the question verbatim |
| `GeminiService.ParseMissingText` | services/geminiService.ts:31-35 | a reply without text gives explanation "" and the question as keywords |
| `GeminiService.ParseSentinelOnce` | services/geminiService.ts:32-35 | one sentinel with a non-empty tail: the explanation is the trimmed prefix and the keywords are the trimmed suffix |
| `GeminiService.ParseSentinelAtEnd` | services/geminiService.ts:35 | a sentinel at the very end leaves an empty tail, which is falsy, so the keywords fall back to the question |
| `GeminiService.ParseWhitespaceTail` | services/geminiService.ts:35 | a tail of whitespace only is truthy and trims to "", so the keywords are "" |
| `GeminiService.ParseRepeatedSentinel` | services/geminiService.ts:32-35 | with two or more sentinels, the keywords are the trimmed text between the first two (or the question when that text is empty), and the rest is discarded |
| `GeminiService.ParseExampleReply` | services/geminiService.ts:21-36 | a reply in the prompted format ("Step 1: ..." + " \n" + sentinel + " " + "addition, arithmetic, math") parses to that explanation line and those keywords |
| `GeminiService.FetchMockVideos` | services/geminiService.ts:39-63 | exactly three videos for every query, including "" |
| `GeminiService.FirstTitleIsFirstKeyword` | services/geminiService.ts:46 | the first title is "Detailed lesson on: " followed by the query up to its first comma, or the whole query when it has no comma |
| `GeminiService.ExampleFirstTitle` | services/geminiService.ts:46 | the example keywords give the first title "Detailed lesson on: addition" |
| `GeminiService.MockVideoIdsDistinct` | services/geminiService.ts:43-62 | the three ids are pairwise distinct (App.tsx:206 uses them as list keys) |
| `GeminiService.MockVideosFixedFields` | services/geminiService.ts:43-62 | for every query, the ids are dQw4w9WgXcQ, 3JZ_D3ELwOQ, L_jWHffIx5E and the channels Education Academy, Master Class, Study Guide, in that order; the second and third titles are fixed; each thumbnail comes from its own seed |
| `GeminiService.MockVideosIgnoreRestOfQuery` | services/geminiService.ts:43-62 | only the first title depends on the query: the second and third records, and the first record's id, thumbnail and channel, are the same for every query; lists for queries with the same part before the first comma are equal |
| `App.OcrPayload` | App.tsx:36 | the payload is missing exactly when the data URL has no comma; when present, it contains no comma |
| `App.OcrPayloadIsSecondPiece` | App.tsx:36 | the payload is exactly the text between the data URL's first and second comma (or first comma and end) |
| `App.SolveResult` | App.tsx:51-58 | the stored result holds the captured question, an explanation free of the sentinel and of edge whitespace, and three videos |
| `App.Session.Valid` | App.tsx:8-14 | the invariant every handler keeps: CROPPING never entered, the edit screen has an image, the results screen has results, `loading` exactly while a provider call is outstanding |
| `App.Session.constructor` | App.tsx:8-14 | the initial state: DASHBOARD, no image, "", not loading, empty message, no results, the text tab |
| `App.Session.ImageLoaded` | App.tsx:22-26 | the image is stored before extraction starts; the spinner shows the OCR message; the payload is that of the data URL |
| `App.Session.StartOcr` | App.tsx:32-36 | sets loading and "Reading your question..."; computes the payload; changes nothing else |
| `App.Session.CompleteOcr` | App.tsx:37-44 | on success, the text becomes the reply text and the step becomes OCR_EDIT; on failure, step and text are unchanged; loading is false on both paths |
| `App.Session.StartSolve` | App.tsx:47-49 | sets loading and "AI is solving your doubt..."; the question sent is the current text; changes nothing else |
| `App.Session.CompleteSolve` | App.tsx:50-64 | on success, the results are those for the captured question and the step becomes RESULTS; on failure, step and results are unchanged; loading is false on both paths |
| `App.Session.EditText` | App.tsx:158 | changes only the text |
| `App.Session.SelectTab` | App.tsx:177-184 | changes only the active tab |
| `App.Session.GoToDashboard` | App.tsx:82 | the back button (and "Solve another doubt", line 230) sets the step to DASHBOARD and clears nothing: image, text and results stay |
| `App.SuccessfulRoundTrip` | App.tsx:32-65 | extraction then solve, both answered, ends at RESULTS with loading off, holding the results for the extracted text as question, with three videos |
| `App.ExampleRoundTrip` | App.tsx:47-59 | question "2+2=?" with the example reply ends at RESULTS with explanation "Step 1: ..." and first video "Detailed lesson on: addition" |
| `App.FailedExtraction` | App.tsx:40-44 | a failed extraction from the dashboard leaves DASHBOARD, text "" and loading off |
| `App.FailedSolve` | App.tsx:60-64 | a failed solve leaves OCR_EDIT, the extracted text, no results and loading off |
| `App.SolveCompletesAfterLeaving` | App.tsx:47-65 | nothing cancels a solve: after editing the text and going back while it runs, its completion still opens RESULTS, for the question that was sent |

## Left out

- Rendering, markup, styling, and the per-line display split of the explanation (App.tsx:67-252, apart from the handlers listed above): presentation only.
- The file input and `FileReader` plumbing (App.tsx:18-30). Only the `onload` callback is modelled, as `App.Session.ImageLoaded`.
- The Gemini SDK calls, including the prompt text, model name, temperature and API key (services/geminiService.ts:2-16, 21-29). These are foreign network calls. Their reply text, or their rejection, is an input (`App.Reply`).
- `Math.random()` in the thumbnail URLs (services/geminiService.ts:47, 53, 59): the random values are the parameter `GeminiService.ThumbnailSeeds`.
- `alert` and navigation to the video site (App.tsx:41, 61, 207): side effects only.
- Async interleaving in general. A Complete method may only follow its own Start, possibly with other handlers in between. If a Start runs while another call is outstanding, it replaces the `pending` record, and the earlier call's completion is then not modelled.
- The loading overlay (App.tsx:67-72, 76) covers the screen and intercepts pointer input, but it takes no keyboard focus, and the handlers do not check `loading`. So the model does not restrict handlers while a call is outstanding.
- Which screen renders which control (App.tsx:78-252). The model does not restrict a handler to the screen that shows its control: for example, `App.Session.EditText` may also run on DASHBOARD, where the app renders no text area. `Valid()` holds whatever the order.
- JsString.Split: a separator must be non-empty. The empty-separator case of `split` is not modelled, because the code only splits on the literals `'KEYWORDS:'` and `','`.
- JsString.IsWhitespace: characters are Unicode scalar values, not UTF-16 code units. Every character `trim` removes lies in the Basic Multilingual Plane, so the two agree on what is removed.
- App.Session.StartOcr: requires that an image has been stored, which its only caller (`ImageLoaded`) ensures.
- App.Session.CompleteSolve: the question is passed in explicitly, and must be the one its Start captured. In the source, the `handleSolve` closure holds it.
