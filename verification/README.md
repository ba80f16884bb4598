# A verified model of the Gujarati LaTeX Beamer editor

The application is a React client around a generative-AI model. It holds one
LaTeX Beamer document. The user can ask the model to rewrite the whole
document, rewrite only a selected part, or generate content from an image or
a PDF. The client then merges the model's answer back into the document.

This project models the logic behind that flow in Dafny and proves its
properties. Four parts are covered:

- **The generation client** (`GeminiService`, from `services/geminiService.ts`):
  - the API-key check;
  - cleaning of the model's reply: the empty-reply error, trimming, and
    stripping of one Markdown fence tagged `latex`/`tex`;
  - ordered classification of thrown errors into five messages;
  - the shared error flow of the four exported calls.
- **The edit-session controller** (`EditSession`, from `App.tsx`):
  - the session state;
  - each of the four actions, split into `Start…` (checks and entering the
    busy state) and `Settle` (merge or error report, then idle again);
  - the offset splice of a rewritten selection;
  - the payload taken from a data URL;
  - the clearing helpers and the file-type gates.
- **The editor** (`LatexCodeView`, from `components/LatexCodeView.tsx`): the
  buffer that follows the canonical document, the published selection, and
  the three-part highlight layer.
- **The prompt controls** (`PromptControls`, from
  `components/PromptControls.tsx`): the Enter key, the disabled buttons and
  the modify button's title.

`JsStrings` states the JavaScript string primitives these rely on over
`seq<char>`:

- `trim` and `\s`: one whitespace set, the ECMAScript WhiteSpace and
  LineTerminator code points;
- `startsWith`, `endsWith` and `includes`;
- `toLowerCase`;
- `substring`, which clamps its offsets and swaps them when out of order;
- `split` with a one-character separator.

`SessionProperties` connects the modules: the controls against the handlers
they launch, and the handlers fed with what the client returns.

Five behaviours of the code are easy to miss, and each is stated as a
lemma:

- **No busy guard in the handlers.** No handler of App.tsx reads
  `isLoading`, so a start while busy is accepted
  (`EditSession.StartIgnoresBusyFlag`). Only the controls prevent it, by
  disabling themselves on `isLoading`:
  - the prompt box, the update and modify buttons and the Enter key
    (components/PromptControls.tsx:27, 67, 73, 89), which
    `SessionProperties.BusyGuardIsInTheControls` covers;
  - the image and PDF panels' generate buttons, file inputs and paste
    handler, and the input-method tabs
    (components/ImageInputArea.tsx:42, 65; components/PdfInputArea.tsx:41,
    88, 117; components/InputMethodSelector.tsx:24). These components are
    not part of this model.
- **Edits during an action are lost.** The editor is never disabled, and
  the rewrite handler splices into the document it captured when it
  started (App.tsx:199-205). An edit made while the rewrite is in flight is
  overwritten (`EditSession.EditDuringFlightIsLost`).
- **An empty rewrite is an error, not a deletion.** The rewrite
  instructions ask the model to answer "delete this" with an empty string
  (services/geminiService.ts:94). The comments at
  services/geminiService.ts:106-108 assume cleaning tolerates that. It does
  not: an empty answer fails, and the selected text stays
  (`SessionProperties.EmptySnippetIsNotDeletion`).
- **Cleaning is not idempotent.** A fence nested in a fence loses one level
  per cleaning (`GeminiService.CleanIsNotIdempotent`).
- **Only the second field is the payload.**
  - The payload is `split(',')[1]` (App.tsx:233, 267): the second
    comma-separated field, not everything after the first comma
    (`EditSession.PayloadStopsAtNextComma`).
  - A data URL without a payload enters the busy state and clears the
    selection before it fails. The service is never called
    (`EditSession.StartImage`).

## Model

| member | source | states |
|---|---|---|
| `JsStrings.Trim` | services/geminiService.ts:17-22 | The trimmed text has no whitespace at either end, is no longer than the input, and is empty exactly when the input is all whitespace. |
| `JsStrings.TrimOfPadded` | services/geminiService.ts:22 | A trimmed core with only whitespace around it is what `trim` returns, so `trim` is determined by the padding. |
| `JsStrings.TrimIgnoresPadding` | services/geminiService.ts:22-26 | Whitespace added on either side does not change what `trim` returns. |
| `JsStrings.TrimIsPadded` | services/geminiService.ts:22 | What `trim` returns sits inside the input with nothing but whitespace before and after it. |
| `JsStrings.TrimStartDrops` | services/geminiService.ts:22 | The leading trim removes exactly a whitespace prefix and stops at a non-whitespace character. |
| `JsStrings.TrimEndDrops` | services/geminiService.ts:22 | The trailing trim removes exactly a whitespace suffix and stops at a non-whitespace character. |
| `JsStrings.ToLowerCase` | services/geminiService.ts:39-42 | Lower-casing keeps the length, maps each ASCII capital to its small letter and the KELVIN SIGN to `k`, keeps every other character, and leaves no capital behind. |
| `JsStrings.ToLowerCaseIdempotent` | services/geminiService.ts:39-42 | Lower-casing twice is the same as lower-casing once. |
| `JsStrings.IncludesLowered` | services/geminiService.ts:39-42 | If a message contains a needle in any case, its lower-cased form contains the lower-cased needle. |
| `JsStrings.Substring` | components/LatexCodeView.tsx:127-129 | `substring` is at most as long as the string, and gives the slice between the offsets when they are in range, in either order. |
| `JsStrings.SubstringPiecesJoin` | components/LatexCodeView.tsx:127-129 | The text before, between and after two ordered clamped offsets joins back to the string. |
| `JsStrings.Split` | App.tsx:233 | Splitting on a character gives at least one piece; no piece contains the separator; the pieces joined with it give back the input. |
| `JsStrings.SplitJoin` | App.tsx:233 | Splitting inverts joining separator-free pieces. |
| `GeminiService.EnsureApiKey` | services/geminiService.ts:6-14 | An unset or empty key fails with the `API_KEY_MISSING:`-marked message; any other key is passed on. |
| `GeminiService.FenceCapture` | services/geminiService.ts:23-25 | The fence pattern matches exactly when the text starts and ends with non-overlapping fences; its capture has no outer whitespace. |
| `GeminiService.TagBeforeClosingFence` | services/geminiService.ts:23 | A `latex` or `tex` tag read after the opening fence never overlaps the closing fence. |
| `GeminiService.CleanLatexResponse` | services/geminiService.ts:16-29 | An absent or blank reply fails with the empty-response message. Otherwise the result is non-empty and trimmed, and it differs from the trimmed reply only when the reply is fence-wrapped. |
| `GeminiService.FenceCaptureOfBlock` | services/geminiService.ts:23-26 | The capture of a fenced block is its trimmed body when the tag is read as written. In an untagged block this excludes only a body that itself starts with `latex` or `tex`. |
| `GeminiService.CleanStripsFence` | services/geminiService.ts:22-27 | Whitespace, a fence with an optional `latex`/`tex` tag, content, and a closing fence clean to the trimmed content. The one exclusion is untagged content that starts right after the fence with `latex` or `tex`, which the pattern reads as the tag. |
| `GeminiService.CleanLatexFenceExample` | services/geminiService.ts:23-27 | A `latex` fence around one line cleans to that line. |
| `GeminiService.CleanKeepsEmptyFence` | services/geminiService.ts:25 | A fenced block with only whitespace inside is returned unchanged, fences included. |
| `GeminiService.CleanKeepsEmptyFenceExamples` | services/geminiService.ts:25 | Six backticks, and a `latex` fence around a line break, are returned unchanged. |
| `GeminiService.CleanKeepsPlainText` | services/geminiService.ts:22-28 | A trimmed, non-empty reply without fences is returned unchanged. |
| `GeminiService.CleanUnwrapsPlainFence` | services/geminiService.ts:23-27 | An untagged fence around content that does not start with `latex` or `tex` cleans to the trimmed content. |
| `GeminiService.CleanIsNotIdempotent` | services/geminiService.ts:23-27 | A fence nested in a fence loses only the outer fence. Cleaning the result again strips the inner one and gives a different text, so cleaning is not idempotent. |
| `GeminiService.CleanReadsContentAsTag` | services/geminiService.ts:23 | In an untagged fence, content starting with `tex` loses those letters to the tag, whatever follows. |
| `GeminiService.Classify` | services/geminiService.ts:33-45 | The tests run in order. The marker test decides alone. "API key not valid" wins whenever the marker is absent. Quota is chosen only for a message mentioning "quota" in some case, and a model issue only when "quota" is not mentioned. An empty message fails every test. |
| `GeminiService.HandleApiError` | services/geminiService.ts:31-46 | The thrown message is never empty. It carries the missing-key marker exactly when the input does, and then it is the input unchanged. An unclassified message becomes a generic failure that starts with "AI generation failed: " and ends with the input. |
| `GeminiService.InvalidKeyOutranksLaterTests` | services/geminiService.ts:36-37 | Once the marker test fails, "API key not valid" wins over the quota and model-issue tests. |
| `GeminiService.QuotaTestIgnoresCase` | services/geminiService.ts:39-40 | "quota" in any case gives the quota message once the earlier tests fail. |
| `GeminiService.ModelIssueTestIgnoresCase` | services/geminiService.ts:42-43 | "blocked", "safety settings", "candidate error" or "model_error" in any case gives the model-issue message when no quota is mentioned. |
| `GeminiService.OtherErrorsAreGenerationFailures` | services/geminiService.ts:45 | Any other message becomes "AI generation failed: " followed by the message. An empty (or absent) message gives "Unknown error during API call". |
| `GeminiService.Generate` | services/geminiService.ts:48-81 | A missing key fails with the marked message whatever the reply. With a key, a raised error fails with `HandleApiError` of its message; a reply that cleans succeeds with the cleaned text; an empty or blank reply fails with `HandleApiError` of the empty-response message. Results are non-empty and trimmed; errors are non-empty. |
| `GeminiService.MissingKeyPrecedesRequest` | services/geminiService.ts:48-49 | Without a key every call fails with the same message, whatever the model would have answered. |
| `GeminiService.EmptyReplyIsAnError` | services/geminiService.ts:106-116 | An absent or blank reply fails through the error classification, with a message that does not carry the missing-key marker. |
| `EditSession.EditDocument` | App.tsx:90-92 | An edit replaces the document and nothing else. |
| `EditSession.EditPrompt` | components/PromptControls.tsx:63 | Typing in the prompt box replaces the prompt and nothing else. |
| `EditSession.SelectionChanged` | App.tsx:94-98 | A published selection replaces the stored one and nothing else. |
| `EditSession.ClearSelection` | App.tsx:100-104 | Afterwards nothing is selected and nothing else has changed. |
| `EditSession.ClearImage` | App.tsx:106-110 | The image, its type and its instruction are emptied, and nothing else changes. |
| `EditSession.ClearPdf` | App.tsx:112-117 | The PDF, its type, its instruction and its name are emptied, and nothing else changes. |
| `EditSession.ImageFileSelected` | App.tsx:119-124 | Only types starting with `image/` pass. A refused file sets the type error; either way only the error changes. |
| `EditSession.ImageLoaded` | App.tsx:126-129 | The data URL and type that were read become the image input; its instruction stays. |
| `EditSession.ImageReadFailed` | App.tsx:126-133 | A failed read shows the read error. The `onloadend` that follows stores the reader's `null` result and the file's type, so an image loaded earlier is dropped; its instruction and everything else stay. |
| `EditSession.PdfFileSelected` | App.tsx:137-143 | Only the exact type `application/pdf` passes. An accepted file clears the error and records its name; a refused one sets the type error and changes nothing else. |
| `EditSession.PdfLoaded` | App.tsx:145-148 | The data URL and type that were read become the PDF input; the instruction and name stay. |
| `EditSession.PdfReadFailed` | App.tsx:145-152 | A failed read shows the read error. The `onloadend` that follows stores the `null` result and the file's type, so a PDF loaded earlier is dropped; its instruction, its name and everything else stay. |
| `EditSession.Splice` | App.tsx:199-205 | For offsets in range, the new document is the old prefix, then the snippet, then the old suffix, with the matching length. |
| `EditSession.SpliceOfEnclosedText` | App.tsx:199-205 | Splicing in the text the offsets enclose gives the document back. |
| `EditSession.SpliceKeepsSurroundings` | App.tsx:199-205 | The text before the start and after the end survives, and the snippet sits at the start offset. |
| `EditSession.SpliceBeyondEndAppends` | App.tsx:201-202 | Offsets past the end of the document append the snippet, because both substrings clamp. |
| `EditSession.Enter` | App.tsx:162-164 | After the checks the error is cleared and the session is busy with the action's kind; nothing else changes. |
| `EditSession.StartUpdate` | App.tsx:156-165 | A blank prompt only sets the prompt error. Otherwise the session is busy with an update, the error and the selection are cleared, and the current document and prompt are sent. |
| `EditSession.StartModify` | App.tsx:184-196 | A missing or empty selection is reported before a blank prompt. Otherwise the session is busy with a rewrite that keeps the selection and sends the document, the selected text, its offsets and the prompt. |
| `EditSession.MediaPayload` | App.tsx:233-236 | The payload exists exactly when the second comma-separated field exists and is non-empty, and then it is exactly that field, which contains no comma. |
| `EditSession.PayloadOfDataUrl` | App.tsx:233-236 | For `header,data` the payload is `data`; an empty `data` gives none. |
| `EditSession.PayloadStopsAtNextComma` | App.tsx:233 | A further comma cuts the payload short. |
| `EditSession.NoCommaNoPayload` | App.tsx:233-236 | A data URL without a comma has no payload. |
| `EditSession.StartImage` | App.tsx:221-237 | A missing image or type only sets the image error. Otherwise the selection is cleared. With a payload the session is busy and sends the document, payload, type and instruction. Without one it ends idle at once with the invalid-data error. |
| `EditSession.StartPdf` | App.tsx:255-271 | The same as `StartImage`, for the PDF input and its messages. |
| `EditSession.FailurePrefix` | App.tsx:175 | Each action's error prefix starts with "F", so it can never carry the missing-key marker. |
| `EditSession.ReportError` | App.tsx:171-176 | A message with the missing-key marker is shown verbatim; that is the only way the marker is shown. Any other message is shown as exactly the action's prefix followed by the message, or by "Unknown error" for an empty one. |
| `EditSession.Fail` | App.tsx:208-218 | A failure shows the reported error and returns to idle. The document, prompt, selection and media inputs stay. |
| `EditSession.Merge` | App.tsx:199-205 | A rewrite splices the result into the launch-time document at the launch-time offsets; every other action takes the result as the document. |
| `EditSession.Settle` | App.tsx:166-182 | The session always ends idle. A failure is reported. A success merges the result and keeps the error. Update clears the prompt; rewrite clears the prompt and the selection; image and PDF empty their own input. |
| `EditSession.UpdateRoundTrip` | App.tsx:156-182 | A successful update leaves the result as the document, with an empty prompt, no selection, no error, and idle. |
| `EditSession.ModifyWithSameTextRoundTrip` | App.tsx:184-219 | Rewriting a selection with its own text gives the document back and clears the prompt and the selection. |
| `EditSession.ModifyMergeIgnoresSelectedText` | App.tsx:199-205 | The merge depends on the offsets only, never on the selected text. |
| `EditSession.FailureKeepsInputs` | App.tsx:208-218 | A failed action of any kind keeps the document and every input, returns to idle and shows the reported error. |
| `EditSession.EditDuringFlightIsLost` | App.tsx:199-219 | An edit made while a rewrite is in flight does not change the merged document. |
| `EditSession.StartIgnoresBusyFlag` | App.tsx:156-165 | Every handler accepts or refuses a start the same way whether or not an action is in flight. |
| `EditSession.ImageRoundTrip` | App.tsx:221-253 | A data URL `header,data` sends `data`. A successful generation replaces the document and empties the image input. |
| `EditSession.ImageWithoutPayloadFails` | App.tsx:233-246 | A data URL without a comma ends idle with "Failed to generate from image: Invalid image data format.". |
| `EditSession.PdfRoundTrip` | App.tsx:255-287 | A data URL `header,data` sends `data`. A successful generation replaces the document and empties the PDF input. |
| `EditSession.IsTextSelected` | App.tsx:320 | The controls treat text as selected exactly when a selection is stored and its text is not empty. |
| `EditSession.FailedReadDiscardsEarlierMedia` | App.tsx:119-153 | After an accepted file fails to read, the read error is shown, and the image or PDF action is refused for a missing file even if one was loaded before. The PDF keeps its recorded name. |
| `EditSession.FileGates` | App.tsx:119-153 | A refused file leaves the media input alone. An accepted file, once read, fills it; the PDF also keeps its name. |
| `LatexCodeView.SyncFromProp` | components/LatexCodeView.tsx:44-51 | After the effect the buffer equals the canonical document. A buffer that already matches is left alone. |
| `LatexCodeView.InputChange` | components/LatexCodeView.tsx:65-69 | The buffer and the text handed to the parent are both the typed text. |
| `LatexCodeView.EchoLeavesBuffer` | components/LatexCodeView.tsx:44-69 | The parent's echo of a user edit leaves the buffer unchanged. |
| `LatexCodeView.CaptureSelection` | components/LatexCodeView.tsx:71-75 | The published offsets are the textarea's. The text is the slice between them when they are in range, and never longer than the value. |
| `LatexCodeView.ShowHighlight` | components/LatexCodeView.tsx:87-91 | The highlight is drawn only when the editor is unfocused and both offsets are known. A collapsed selection draws nothing. Otherwise it is drawn. |
| `LatexCodeView.HighlightLayer` | components/LatexCodeView.tsx:117-130 | There is a layer exactly when the editor is unfocused and both offsets are known and differ. For in-range offsets its parts are the canonical document's prefix, selection and suffix. |
| `LatexCodeView.HighlightCoversDocument` | components/LatexCodeView.tsx:125-129 | The three parts join to the canonical document exactly when the clamped offsets are in order, even for offsets left over from a longer document. |
| `LatexCodeView.HighlightShowsCapturedText` | components/LatexCodeView.tsx:117-130 | While the document is unchanged, the highlighted part is the captured selection text. |
| `PromptControls.PromptDisabled` | components/PromptControls.tsx:67 | The prompt box is disabled exactly while loading. |
| `PromptControls.UpdateDisabled` | components/PromptControls.tsx:73 | The update button is disabled whenever the prompt box is. When nothing is loading, it is disabled exactly for a blank prompt. |
| `PromptControls.ModifyDisabled` | components/PromptControls.tsx:89 | The modify button is disabled whenever the update button is, and otherwise exactly when no text is selected. |
| `PromptControls.HandleKeyDown` | components/PromptControls.tsx:24-33 | Only Enter without Shift suppresses the line break. It launches something exactly when nothing is loading, the prompt is not blank and no text is selected, and then it is always the update. |
| `PromptControls.UpdateTitle` | components/PromptControls.tsx:83 | The update button asks for a prompt exactly when the prompt is blank. |
| `PromptControls.ModifyTitle` | components/PromptControls.tsx:43-52 | The title is empty exactly when the modify button is enabled. Loading comes first, then both missing, then the missing selection, then the blank prompt. |
| `PromptControls.EnterActsLikeUpdateButton` | components/PromptControls.tsx:24-33 | Whenever Enter launches, the update button is enabled too, and Enter never launches the rewrite. |
| `PromptControls.EnterAndButtonDisagreeOnSelection` | components/PromptControls.tsx:28-31 | Idle with a non-blank prompt, Enter does nothing exactly when text is selected, though the update button is then enabled. |
| `PromptControls.OtherKeysLaunchNothing` | components/PromptControls.tsx:25 | Shift+Enter and every other key keep their default and launch nothing. |
| `PromptControls.LoadingLocksControls` | components/PromptControls.tsx:67-89 | While loading, the prompt box, both buttons and the Enter key are all disabled, and the modify title says so. |
| `SessionProperties.SelectionOffsets` | App.tsx:300-301 | The editor receives offsets exactly when a selection is stored, and they are that selection's offsets. |
| `SessionProperties.ButtonsMatchHandlerChecks` | components/PromptControls.tsx:73-89 | When nothing is loading, each button is enabled exactly when its handler gets past its checks. |
| `SessionProperties.ModifyTitleAgreesWithHandler` | components/PromptControls.tsx:43-52 | Without a selection, both the title and the handler name the missing selection rather than the blank prompt. |
| `SessionProperties.EnterLaunchesUpdate` | components/PromptControls.tsx:28-31 | When Enter launches, the update handler goes ahead. |
| `SessionProperties.BusyGuardIsInTheControls` | components/PromptControls.tsx:67-89 | While busy, both buttons and Enter are off, though the update handler would still accept a non-blank prompt. |
| `SessionProperties.MissingKeyShownVerbatim` | App.tsx:171-176 | Without a key, every action shows the missing-key message unchanged. |
| `SessionProperties.QuotaErrorKeepsDocument` | App.tsx:171-181 | A quota error raised by the model, in any case, is shown as the action's prefix followed by the quota message. The session is idle again, and the document and every input are unchanged. |
| `SessionProperties.FencedReplyUpdatesDocument` | App.tsx:166-170 | A fenced reply to an update becomes the document without its fence, with the prompt cleared and no error. This excludes only untagged content that starts with `latex` or `tex`. |
| `SessionProperties.PlainReplySplicedIntoSelection` | App.tsx:197-207 | A plain reply to a rewrite is spliced between the text around the selection, and the highlight disappears. |
| `SessionProperties.EmptySnippetIsNotDeletion` | services/geminiService.ts:106-116 | An empty rewrite keeps the document, the selection and the prompt, and shows "Failed to modify selected code: " before the classified empty-response error. |

## Left out

- The calls to the generative model and the prompt templates they send are not modelled. The model's answer is a parameter: `ModelReply`, a reply whose text may be absent, or a thrown error message.
- Reading files with `FileReader` is I/O. `ImageLoaded`/`PdfLoaded` and `ImageReadFailed`/`PdfReadFailed` take its outcome as given. A failed read is one step: `onerror` and the `onloadend` the reader fires after it.
- The clipboard copy and paste, the "Copied!" timer and `console` logging are I/O.
- Scroll synchronisation of the highlight layer is timing and DOM work with nothing to state. So are focus events: the focus flag is a parameter of `LatexCodeView.HighlightLayer`.
- React rendering and state batching are not modelled. Each handler step is one atomic transition, and `Start…`/`Settle` split a handler at its single `await`.
- The initial template document is not modelled: it is just a string the session starts with.
- The spinner labels, button styles, the input-method tabs and the image, PDF, header and error panels are markup around the modelled state. So are the components not used by the application (`InputControls`, `LatexOutputDisplay`).
- An error without a `message` is modelled as the empty message. Every test treats it the same way.
- `JsStrings.ToLowerCase` maps only the ASCII capitals and the KELVIN SIGN, one character to one character. It is used only to search for the needles "quota", "model_error", "candidate error", "safety settings" and "blocked".
  - Apart from these, only U+0130 (capital I with dot above) lowers to something containing an ASCII letter: "i" followed by the combining dot U+0307. The model keeps U+0130 as it is.
  - No needle contains U+0307, no needle ends in "i", and every "i" in a needle is followed by another needle letter. So no needle can match across the "i" that JavaScript produces, and the tests give the same answers.
  - Lengths and offsets of a lower-cased text containing U+0130 differ from JavaScript's. The model never uses them.
- Strings are sequences of Unicode code points (Dafny `char`). JavaScript's `.length`, `substring` and the textarea's `selectionStart`/`selectionEnd` count UTF-16 code units.
  - Offsets and lengths therefore differ from the browser's for text containing characters outside the Basic Multilingual Plane.
  - A lone surrogate cannot be represented.
  - Gujarati script and all the ASCII LaTeX syntax lie inside that plane, where the two counts agree.
- `GeminiService.EmptyReplyIsAnError` proves that an empty reply fails with `HandleApiError` of the empty-response message, but not the full text. The text is "AI generation failed: " followed by that message; deriving it needs the classification's substring tests carried out on the 91-character message, which the proofs do not do.
- `SessionProperties.EmptySnippetIsNotDeletion` states the shown error in terms of `HandleApiError` of the empty-response message, for the same reason.
