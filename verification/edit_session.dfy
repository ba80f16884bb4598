/** The edit-session controller of App.tsx: the document and the inputs the
    user fills in, the four generation actions, and the helpers that clear
    inputs or accept files.

    Each asynchronous action is split in two. `Start…` runs the handler up
    to its `await`: it checks the inputs, enters the busy state and returns
    the `Request` the handler closed over. `Settle` runs the rest once the
    service has answered: it merges the result or reports the error, and
    always leaves the busy state. Whatever the user does in between is an
    ordinary transition on the session. */
module EditSession {
  import opened Wrappers
  import opened JsStrings
  import GeminiService

  /** The action in flight (`ActiveActionType` without its `null`). */
  datatype ActionKind = Update | Modify | GenerateImage | GeneratePdf

  /** A selection in the editor: its text and its offsets. The three are
      always set and cleared together. */
  datatype Selection = Selection(text: string, start: nat, end: nat)

  /** The image input: the data URL read from the file, its type, and the
      optional instruction. */
  datatype ImageInput = ImageInput(dataUrl: Option<string>, mimeType: Option<string>, prompt: string)

  /** The PDF input: the data URL read from the file, its type, the optional
      instruction and the file name shown to the user. */
  datatype PdfInput = PdfInput(dataUrl: Option<string>, mimeType: Option<string>, prompt: string, fileName: Option<string>)

  /** The state of the application component. */
  datatype Session = Session(
    document: string,
    prompt: string,
    selection: Option<Selection>,
    image: ImageInput,
    pdf: PdfInput,
    isLoading: bool,
    active: Option<ActionKind>,
    error: Option<string>)

  /** What a launched handler closed over: the document and inputs as they
      were when it was started, and the payload sent to the model. */
  datatype Request =
    | UpdateRequest(document: string, instruction: string)
    | ModifyRequest(document: string, snippet: string, start: nat, end: nat, instruction: string)
    | ImageRequest(document: string, payload: string, mimeType: string, instruction: string)
    | PdfRequest(document: string, payload: string, mimeType: string, instruction: string)

  /** The result of starting an action: settled at once (rejected inputs, or
      a media payload that could not be extracted), or waiting for the
      service to answer `request`. */
  datatype Launch = Done(session: Session) | Awaiting(session: Session, request: Request)

  const EmptyImage := ImageInput(None, None, "")
  const EmptyPdf := PdfInput(None, None, "", None)

  const BlankUpdatePromptMessage := "Please enter a prompt to update the presentation."
  const NoSelectionMessage := "No text selected to modify."
  const BlankModifyPromptMessage := "Please enter a prompt describing how to modify the selected text."
  const NoImageMessage := "Please provide an image."
  const NoPdfMessage := "Please select a PDF file."
  const InvalidImageDataMessage := "Invalid image data format."
  const InvalidPdfDataMessage := "Invalid PDF data format."
  const InvalidImageTypeMessage := "Invalid file type. Please select an image."
  const InvalidPdfTypeMessage := "Invalid file type. Please select a PDF file."
  const UnknownError := "Unknown error"
  const ImageReadFailedMessage := "Failed to read image file."
  const PdfReadFailedMessage := "Failed to read PDF file."

  /** No action is in flight. */
  predicate Idle(s: Session) {
    !s.isLoading && s.active.None?
  }

  /** An action of the given kind is in flight. */
  predicate BusyWith(s: Session, kind: ActionKind) {
    s.isLoading && s.active == Some(kind)
  }

  /** `!value`: a string-valued state is absent or empty. */
  predicate Missing(value: Option<string>) {
    value.None? || value.value == ""
  }

  /** The flag passed to the prompt controls: a selection with some text. */
  function IsTextSelected(s: Session): (selected: bool)
    ensures selected ==> s.selection.Some? && |s.selection.value.text| > 0
    ensures s.selection.Some? && |s.selection.value.text| > 0 ==> selected
  {
    s.selection.Some? && s.selection.value.text != ""
  }

  function KindOf(request: Request): (kind: ActionKind)
    ensures kind == Update <==> request.UpdateRequest?
    ensures kind == Modify <==> request.ModifyRequest?
    ensures kind == GenerateImage <==> request.ImageRequest?
    ensures kind == GeneratePdf <==> request.PdfRequest?
  {
    match request
    case UpdateRequest(_, _) => Update
    case ModifyRequest(_, _, _, _, _) => Modify
    case ImageRequest(_, _, _, _) => GenerateImage
    case PdfRequest(_, _, _, _) => GeneratePdf
  }

  // ---------------------------------------------------------------------
  // Plain state updates

  /** `handleLatexCodeChange`: the editor's text becomes the document. */
  function EditDocument(s: Session, code: string): (r: Session)
    ensures r.document == code
    ensures r.(document := s.document) == s
  {
    s.(document := code)
  }

  /** `setUserPrompt` from the prompt box. */
  function EditPrompt(s: Session, text: string): (r: Session)
    ensures r.prompt == text
    ensures r.(prompt := s.prompt) == s
  {
    s.(prompt := text)
  }

  /** `handleSelectionChange`: the editor publishes a new selection. */
  function SelectionChanged(s: Session, text: string, start: nat, end: nat): (r: Session)
    ensures r.selection == Some(Selection(text, start, end))
    ensures r.(selection := s.selection) == s
  {
    s.(selection := Some(Selection(text, start, end)))
  }

  /** `clearSelection`. */
  function ClearSelection(s: Session): (r: Session)
    ensures r.selection.None? && !IsTextSelected(r)
    ensures r.(selection := s.selection) == s
  {
    s.(selection := None)
  }

  /** `clearImageState`: no image, no type, no instruction. */
  function ClearImage(s: Session): (r: Session)
    ensures Missing(r.image.dataUrl) && Missing(r.image.mimeType) && r.image.prompt == ""
    ensures r.(image := s.image) == s
  {
    s.(image := EmptyImage)
  }

  /** `clearPdfState`: no file, no type, no instruction, no name. */
  function ClearPdf(s: Session): (r: Session)
    ensures Missing(r.pdf.dataUrl) && Missing(r.pdf.mimeType) && r.pdf.prompt == "" && r.pdf.fileName.None?
    ensures r.(pdf := s.pdf) == s
  {
    s.(pdf := EmptyPdf)
  }

  /** The type gate of `handleImageFileSelected`: a file whose type does not
      start with `image/` is refused with an error and nothing else
      changes; an accepted one clears the error and is then read (see
      `ImageLoaded`). */
  function ImageFileSelected(s: Session, fileType: string): (r: Session)
    ensures r.(error := s.error) == s
    ensures r.error.None? <==> StartsWith(fileType, "image/")
    ensures r.error.Some? ==> r.error.value == InvalidImageTypeMessage
  {
    if StartsWith(fileType, "image/") then s.(error := None)
    else s.(error := Some(InvalidImageTypeMessage))
  }

  /** The image file has been read: its data URL and type become the image
      input. */
  function ImageLoaded(s: Session, dataUrl: string, fileType: string): (r: Session)
    ensures r.image.dataUrl == Some(dataUrl) && r.image.mimeType == Some(fileType)
    ensures r.image.prompt == s.image.prompt
    ensures r.(image := s.image) == s
  {
    s.(image := s.image.(dataUrl := Some(dataUrl), mimeType := Some(fileType)))
  }

  /** Reading the image file failed. `onerror` shows the error, and the
      `onloadend` that a reader fires after every read, failed or not, then
      stores the reader's `null` result with the file's type: an image read
      earlier is lost, and its instruction stays. */
  function ImageReadFailed(s: Session, fileType: string): (r: Session)
    ensures r.error == Some(ImageReadFailedMessage)
    ensures r.image.dataUrl.None? && r.image.mimeType == Some(fileType) && r.image.prompt == s.image.prompt
    ensures r.(error := s.error, image := s.image) == s
  {
    s.(error := Some(ImageReadFailedMessage), image := s.image.(dataUrl := None, mimeType := Some(fileType)))
  }

  /** The type gate of `handlePdfFileSelected`: only the exact type
      `application/pdf` is accepted; an accepted file clears the error and
      records its name before it is read (see `PdfLoaded`), a refused one
      sets an error and nothing else changes. */
  function PdfFileSelected(s: Session, fileType: string, name: string): (r: Session)
    ensures r.error.None? <==> fileType == "application/pdf"
    ensures r.error.Some? ==> r.error.value == InvalidPdfTypeMessage && r.(error := s.error) == s
    ensures r.error.None? ==> r.pdf.fileName == Some(name) && r.(error := s.error, pdf := s.pdf) == s
    ensures r.pdf.(fileName := s.pdf.fileName) == s.pdf
  {
    if fileType == "application/pdf" then s.(error := None, pdf := s.pdf.(fileName := Some(name)))
    else s.(error := Some(InvalidPdfTypeMessage))
  }

  /** The PDF file has been read: its data URL and type become the PDF
      input. */
  function PdfLoaded(s: Session, dataUrl: string, fileType: string): (r: Session)
    ensures r.pdf.dataUrl == Some(dataUrl) && r.pdf.mimeType == Some(fileType)
    ensures r.pdf.prompt == s.pdf.prompt && r.pdf.fileName == s.pdf.fileName
    ensures r.(pdf := s.pdf) == s
  {
    s.(pdf := s.pdf.(dataUrl := Some(dataUrl), mimeType := Some(fileType)))
  }

  /** Reading the PDF file failed. As for an image, `onerror` shows the
      error and the following `onloadend` stores the `null` result with the
      file's type; the instruction and the file name recorded when the file
      was accepted stay. */
  function PdfReadFailed(s: Session, fileType: string): (r: Session)
    ensures r.error == Some(PdfReadFailedMessage)
    ensures r.pdf.dataUrl.None? && r.pdf.mimeType == Some(fileType)
    ensures r.pdf.prompt == s.pdf.prompt && r.pdf.fileName == s.pdf.fileName
    ensures r.(error := s.error, pdf := s.pdf) == s
  {
    s.(error := Some(PdfReadFailedMessage), pdf := s.pdf.(dataUrl := None, mimeType := Some(fileType)))
  }

  // ---------------------------------------------------------------------
  // The merge of a rewritten selection

  /** `prefix + snippet + suffix` with `prefix = doc.substring(0, start)` and
      `suffix = doc.substring(end)`. */
  function Splice(doc: string, start: nat, end: nat, snippet: string): (r: string)
    ensures start <= end <= |doc| ==> r == doc[..start] + snippet + doc[end..]
    ensures start <= end <= |doc| ==> |r| == |doc| - (end - start) + |snippet|
  {
    Substring(doc, 0, start) + snippet + Substring(doc, end, |doc|)
  }

  /** Splicing in the text the offsets enclose gives the document back. */
  lemma SpliceOfEnclosedText(doc: string, start: nat, end: nat)
    requires start <= end <= |doc|
    ensures Splice(doc, start, end, doc[start..end]) == doc
  {
    assert doc[..start] + doc[start..end] + doc[end..] == doc;
  }

  /** The text before `start` and after `end` survives the splice. */
  lemma SpliceKeepsSurroundings(doc: string, start: nat, end: nat, snippet: string)
    requires start <= end <= |doc|
    ensures StartsWith(Splice(doc, start, end, snippet), doc[..start])
    ensures EndsWith(Splice(doc, start, end, snippet), doc[end..])
    ensures Splice(doc, start, end, snippet)[start..start + |snippet|] == snippet
  {
    var r := Splice(doc, start, end, snippet);
    assert r[..start] == doc[..start];
    assert r[|r| - |doc[end..]|..] == doc[end..];
  }

  /** Offsets beyond the end of the document (a selection made in a longer
      text) append the snippet: both substrings are clamped. */
  lemma SpliceBeyondEndAppends(doc: string, start: nat, end: nat, snippet: string)
    requires |doc| <= start && |doc| <= end
    ensures Splice(doc, start, end, snippet) == doc + snippet
  {
    assert doc[..|doc|] == doc;
  }

  // ---------------------------------------------------------------------
  // Starting an action

  /** Checks passed: the error is cleared and the session is busy with
      `kind`. */
  function Enter(s: Session, kind: ActionKind): (r: Session)
    ensures BusyWith(r, kind) && r.error.None?
    ensures r.(isLoading := s.isLoading, active := s.active, error := s.error) == s
  {
    s.(isLoading := true, active := Some(kind), error := None)
  }

  /** `handleUpdatePresentation` up to its `await`. A blank prompt is refused;
      otherwise the selection is cleared and the current document and
      prompt are sent. */
  function StartUpdate(s: Session): (l: Launch)
    ensures IsBlank(s.prompt) ==> l == Done(s.(error := Some(BlankUpdatePromptMessage)))
    ensures !IsBlank(s.prompt) ==>
      && l.Awaiting?
      && l.request == UpdateRequest(s.document, s.prompt)
      && BusyWith(l.session, Update) && l.session.error.None? && l.session.selection.None?
      && l.session.document == s.document && l.session.prompt == s.prompt
      && l.session.image == s.image && l.session.pdf == s.pdf
  {
    if IsBlank(s.prompt) then Done(s.(error := Some(BlankUpdatePromptMessage)))
    else Awaiting(ClearSelection(Enter(s, Update)), UpdateRequest(s.document, s.prompt))
  }

  /** `handleModifySelectedCode` up to its `await`. The selection is checked
      before the prompt; the selection is kept while the rewrite runs. */
  function StartModify(s: Session): (l: Launch)
    ensures !IsTextSelected(s) ==> l == Done(s.(error := Some(NoSelectionMessage)))
    ensures IsTextSelected(s) && IsBlank(s.prompt) ==> l == Done(s.(error := Some(BlankModifyPromptMessage)))
    ensures IsTextSelected(s) && !IsBlank(s.prompt) ==>
      var sel := s.selection.value;
      && l.Awaiting?
      && l.request == ModifyRequest(s.document, sel.text, sel.start, sel.end, s.prompt)
      && BusyWith(l.session, Modify) && l.session.error.None?
      && l.session.selection == s.selection
      && l.session.document == s.document && l.session.prompt == s.prompt
      && l.session.image == s.image && l.session.pdf == s.pdf
  {
    if !IsTextSelected(s) then Done(s.(error := Some(NoSelectionMessage)))
    else if IsBlank(s.prompt) then Done(s.(error := Some(BlankModifyPromptMessage)))
    else
      var sel := s.selection.value;
      Awaiting(Enter(s, Modify), ModifyRequest(s.document, sel.text, sel.start, sel.end, s.prompt))
  }

  /** The base64 data of a data URL: `dataUrl.split(',')[1]`, when that field
      exists and is not empty. */
  function MediaPayload(dataUrl: string): (p: Option<string>)
    ensures p.Some? <==> |Split(dataUrl, ',')| >= 2 && Split(dataUrl, ',')[1] != ""
    ensures p.Some? ==> p.value == Split(dataUrl, ',')[1]
    ensures p.Some? ==> p.value != "" && ',' !in p.value
  {
    var fields := Split(dataUrl, ',');
    if |fields| >= 2 && fields[1] != "" then Some(fields[1]) else None
  }

  /** A well-formed data URL yields its data part. */
  lemma PayloadOfDataUrl(header: string, data: string)
    requires ',' !in header && ',' !in data
    ensures MediaPayload(header + "," + data) == if data == "" then None else Some(data)
  {
    var parts := [header, data];
    assert Join(parts[1..], ',') == data;
    assert Join(parts, ',') == header + "," + data;
    SplitJoin(parts, ',');
  }

  /** Only the second comma-separated field is read: a data URL with a
      further comma loses everything from that comma on. */
  lemma PayloadStopsAtNextComma(header: string, data: string, more: string)
    requires ',' !in header && ',' !in data && ',' !in more
    ensures MediaPayload(header + "," + data + "," + more) == if data == "" then None else Some(data)
  {
    var parts := [header, data, more];
    assert Join(parts[2..], ',') == more;
    assert Join(parts[1..], ',') == data + "," + more;
    assert Join(parts, ',') == header + "," + data + "," + more;
    SplitJoin(parts, ',');
  }

  /** A data URL without a comma has no payload. */
  lemma NoCommaNoPayload(dataUrl: string)
    requires ',' !in dataUrl
    ensures MediaPayload(dataUrl).None?
  {
    SplitJoin([dataUrl], ',');
  }

  /** `handleGenerateFrameFromImage` up to its `await`. Without an image or a
      type it is refused. Otherwise it enters the busy state and clears the
      selection; a data URL without payload then fails at once, inside the
      `try`, so the session settles with the image error and the service is
      never called. The instruction may be blank. */
  function StartImage(s: Session): (l: Launch)
    ensures Missing(s.image.dataUrl) || Missing(s.image.mimeType) ==> l == Done(s.(error := Some(NoImageMessage)))
    ensures !Missing(s.image.dataUrl) && !Missing(s.image.mimeType) ==>
      && l.session.selection.None?
      && l.session.document == s.document && l.session.prompt == s.prompt
      && l.session.image == s.image && l.session.pdf == s.pdf
      && (l.Awaiting? <==> MediaPayload(s.image.dataUrl.value).Some?)
      && (l.Awaiting? ==>
            && BusyWith(l.session, GenerateImage) && l.session.error.None?
            && l.request == ImageRequest(s.document, MediaPayload(s.image.dataUrl.value).value,
                                         s.image.mimeType.value, s.image.prompt))
      && (l.Done? ==> Idle(l.session) && l.session.error == Some(ReportError(GenerateImage, InvalidImageDataMessage)))
  {
    if Missing(s.image.dataUrl) || Missing(s.image.mimeType) then Done(s.(error := Some(NoImageMessage)))
    else
      var busy := ClearSelection(Enter(s, GenerateImage));
      match MediaPayload(s.image.dataUrl.value)
      case None => Done(Fail(busy, GenerateImage, InvalidImageDataMessage))
      case Some(data) => Awaiting(busy, ImageRequest(s.document, data, s.image.mimeType.value, s.image.prompt))
  }

  /** `handleGenerateFromPdf` up to its `await`, with the same shape as
      `StartImage`. */
  function StartPdf(s: Session): (l: Launch)
    ensures Missing(s.pdf.dataUrl) || Missing(s.pdf.mimeType) ==> l == Done(s.(error := Some(NoPdfMessage)))
    ensures !Missing(s.pdf.dataUrl) && !Missing(s.pdf.mimeType) ==>
      && l.session.selection.None?
      && l.session.document == s.document && l.session.prompt == s.prompt
      && l.session.image == s.image && l.session.pdf == s.pdf
      && (l.Awaiting? <==> MediaPayload(s.pdf.dataUrl.value).Some?)
      && (l.Awaiting? ==>
            && BusyWith(l.session, GeneratePdf) && l.session.error.None?
            && l.request == PdfRequest(s.document, MediaPayload(s.pdf.dataUrl.value).value,
                                       s.pdf.mimeType.value, s.pdf.prompt))
      && (l.Done? ==> Idle(l.session) && l.session.error == Some(ReportError(GeneratePdf, InvalidPdfDataMessage)))
  {
    if Missing(s.pdf.dataUrl) || Missing(s.pdf.mimeType) then Done(s.(error := Some(NoPdfMessage)))
    else
      var busy := ClearSelection(Enter(s, GeneratePdf));
      match MediaPayload(s.pdf.dataUrl.value)
      case None => Done(Fail(busy, GeneratePdf, InvalidPdfDataMessage))
      case Some(data) => Awaiting(busy, PdfRequest(s.document, data, s.pdf.mimeType.value, s.pdf.prompt))
  }

  // ---------------------------------------------------------------------
  // Settling an action

  /** The text each action puts before a reported error. */
  function FailurePrefix(kind: ActionKind): (p: string)
    ensures p != "" && p[0] == 'F'
  {
    match kind
    case Update => "Failed to update presentation: "
    case Modify => "Failed to modify selected code: "
    case GenerateImage => "Failed to generate from image: "
    case GeneratePdf => "Failed to generate from PDF: "
  }

  /** The error shown for a failed action: a missing-key error verbatim,
      anything else behind the action's prefix, with "Unknown error" for an
      empty message. */
  function ReportError(kind: ActionKind, message: string): (shown: string)
    ensures StartsWith(shown, GeminiService.KeyMissingMarker) <==> StartsWith(message, GeminiService.KeyMissingMarker)
    ensures StartsWith(message, GeminiService.KeyMissingMarker) ==> shown == message
    ensures !StartsWith(message, GeminiService.KeyMissingMarker) ==>
      shown == FailurePrefix(kind) + (if message == "" then UnknownError else message)
  {
    if StartsWith(message, GeminiService.KeyMissingMarker) then message
    else
      var detail := if message == "" then UnknownError else message;
      var shown := FailurePrefix(kind) + detail;
      assert shown[0] == 'F';
      GeminiService.DiffersAt(shown, GeminiService.KeyMissingMarker, 0);
      shown
  }

  /** The `catch` and `finally` of every handler: the error is reported and
      the session is idle again; nothing else changes. */
  function Fail(s: Session, kind: ActionKind, message: string): (r: Session)
    ensures Idle(r) && r.error == Some(ReportError(kind, message))
    ensures r.document == s.document && r.prompt == s.prompt && r.selection == s.selection
    ensures r.image == s.image && r.pdf == s.pdf
  {
    s.(isLoading := false, active := None, error := Some(ReportError(kind, message)))
  }

  /** The new document after a successful action: the result itself, or for
      a rewrite the result spliced into the document the handler closed
      over. */
  function Merge(request: Request, code: string): (doc: string)
    ensures !request.ModifyRequest? ==> doc == code
    ensures request.ModifyRequest? && request.start <= request.end <= |request.document| ==>
      doc == request.document[..request.start] + code + request.document[request.end..]
  {
    match request
    case ModifyRequest(d, _, start, end, _) => Splice(d, start, end, code)
    case _ => code
  }

  /** The rest of a handler once the service has answered. `s` is the
      session at that moment, which may differ from the one the handler
      started from: the merge uses the document in `request`, and the
      document the user sees now is overwritten. */
  function Settle(s: Session, request: Request, outcome: Result<string, string>): (r: Session)
    ensures Idle(r)
    ensures outcome.Failure? ==> r == Fail(s, KindOf(request), outcome.error)
    ensures outcome.Success? ==>
      && r.document == Merge(request, outcome.value)
      && r.error == s.error
      && (request.UpdateRequest? ==> r.prompt == "" && r.selection == s.selection && r.image == s.image && r.pdf == s.pdf)
      && (request.ModifyRequest? ==> r.prompt == "" && r.selection.None? && r.image == s.image && r.pdf == s.pdf)
      && (request.ImageRequest? ==> r.prompt == s.prompt && r.selection == s.selection && r.image == EmptyImage && r.pdf == s.pdf)
      && (request.PdfRequest? ==> r.prompt == s.prompt && r.selection == s.selection && r.image == s.image && r.pdf == EmptyPdf)
  {
    match outcome
    case Failure(message) => Fail(s, KindOf(request), message)
    case Success(code) =>
      var merged := s.(document := Merge(request, code));
      var cleared :=
        match request
        case UpdateRequest(_, _) => EditPrompt(merged, "")
        case ModifyRequest(_, _, _, _, _) => ClearSelection(EditPrompt(merged, ""))
        case ImageRequest(_, _, _, _) => ClearImage(merged)
        case PdfRequest(_, _, _, _) => ClearPdf(merged);
      cleared.(isLoading := false, active := None)
  }

  // ---------------------------------------------------------------------
  // Properties of the controller

  /** A successful update replaces the document, clears the prompt, and
      leaves the session idle without error. */
  lemma UpdateRoundTrip(s: Session, code: string)
    requires !IsBlank(s.prompt)
    ensures StartUpdate(s).Awaiting?
    ensures var r := Settle(StartUpdate(s).session, StartUpdate(s).request, Success(code));
      && Idle(r) && r.document == code && r.prompt == "" && r.selection.None? && r.error.None?
      && r.image == s.image && r.pdf == s.pdf
  {
  }

  /** A successful rewrite with the selected text itself gives the document
      back, clears the prompt and the selection. */
  lemma ModifyWithSameTextRoundTrip(s: Session)
    requires IsTextSelected(s) && !IsBlank(s.prompt)
    requires var sel := s.selection.value; sel.start <= sel.end <= |s.document| && sel.text == s.document[sel.start..sel.end]
    ensures StartModify(s).Awaiting?
    ensures var r := Settle(StartModify(s).session, StartModify(s).request, Success(s.selection.value.text));
      && Idle(r) && r.document == s.document && r.prompt == "" && r.selection.None? && r.error.None?
  {
    var sel := s.selection.value;
    SpliceOfEnclosedText(s.document, sel.start, sel.end);
  }

  /** The merge of a rewrite depends on the offsets only, not on the text
      that was selected. */
  lemma ModifyMergeIgnoresSelectedText(s: Session, d: string, t1: string, t2: string, start: nat, end: nat,
                                       instruction: string, outcome: Result<string, string>)
    ensures Settle(s, ModifyRequest(d, t1, start, end, instruction), outcome)
         == Settle(s, ModifyRequest(d, t2, start, end, instruction), outcome)
  {
  }

  /** A failed action keeps the document and every input; only the busy
      state ends and the error is shown. */
  lemma FailureKeepsInputs(s: Session, request: Request, message: string)
    ensures var r := Settle(s, request, Failure(message));
      && r.document == s.document && r.prompt == s.prompt && r.selection == s.selection
      && r.image == s.image && r.pdf == s.pdf && Idle(r)
      && r.error == Some(ReportError(KindOf(request), message))
  {
  }

  /** Last writer wins: the editor stays enabled while an action is in
      flight, and an edit made then is overwritten by the merge, which
      starts from the document as it was at launch. */
  lemma EditDuringFlightIsLost(s: Session, edit: string, code: string)
    requires StartModify(s).Awaiting?
    ensures var l := StartModify(s);
      Settle(EditDocument(l.session, edit), l.request, Success(code)).document
        == Settle(l.session, l.request, Success(code)).document
  {
  }

  /** No handler checks the busy flag: an update started while another
      action is in flight is launched all the same. */
  lemma StartIgnoresBusyFlag(s: Session, kind: ActionKind)
    ensures StartUpdate(Enter(s, kind)).Awaiting? <==> StartUpdate(s).Awaiting?
    ensures StartModify(Enter(s, kind)).Awaiting? <==> StartModify(s).Awaiting?
    ensures StartImage(Enter(s, kind)).Awaiting? <==> StartImage(s).Awaiting?
    ensures StartPdf(Enter(s, kind)).Awaiting? <==> StartPdf(s).Awaiting?
  {
  }

  /** An image whose data URL has a payload is sent with it, and a
      successful generation replaces the document and empties the image
      input. */
  lemma ImageRoundTrip(s: Session, header: string, data: string, code: string)
    requires s.image.dataUrl == Some(header + "," + data) && !Missing(s.image.mimeType)
    requires ',' !in header && ',' !in data && data != ""
    ensures StartImage(s).Awaiting? && StartImage(s).request.payload == data
    ensures var r := Settle(StartImage(s).session, StartImage(s).request, Success(code));
      && Idle(r) && r.document == code && r.image == EmptyImage && r.selection.None? && r.error.None?
      && r.prompt == s.prompt && r.pdf == s.pdf
  {
    PayloadOfDataUrl(header, data);
  }

  /** A data URL without a comma never reaches the service: the action ends
      at once with the image error. */
  lemma ImageWithoutPayloadFails(s: Session)
    requires !Missing(s.image.dataUrl) && !Missing(s.image.mimeType) && ',' !in s.image.dataUrl.value
    ensures StartImage(s).Done?
    ensures Idle(StartImage(s).session)
    ensures StartImage(s).session.error == Some("Failed to generate from image: " + InvalidImageDataMessage)
  {
    NoCommaNoPayload(s.image.dataUrl.value);
    var shown := ReportError(GenerateImage, InvalidImageDataMessage);
    assert InvalidImageDataMessage[0] == 'I';
    GeminiService.DiffersAt(InvalidImageDataMessage, GeminiService.KeyMissingMarker, 0);
  }

  /** A PDF whose data URL has a payload is sent with it, and a successful
      generation replaces the document and empties the PDF input. */
  lemma PdfRoundTrip(s: Session, header: string, data: string, code: string)
    requires s.pdf.dataUrl == Some(header + "," + data) && !Missing(s.pdf.mimeType)
    requires ',' !in header && ',' !in data && data != ""
    ensures StartPdf(s).Awaiting? && StartPdf(s).request.payload == data
    ensures var r := Settle(StartPdf(s).session, StartPdf(s).request, Success(code));
      && Idle(r) && r.document == code && r.pdf == EmptyPdf && r.selection.None? && r.error.None?
      && r.prompt == s.prompt && r.image == s.image
  {
    PayloadOfDataUrl(header, data);
  }

  /** A refused file leaves every input as it was, and an accepted file
      followed by its reading fills the input. */
  lemma FileGates(s: Session, fileType: string, name: string, dataUrl: string)
    ensures !StartsWith(fileType, "image/") ==> ImageFileSelected(s, fileType).image == s.image
    ensures fileType != "application/pdf" ==> PdfFileSelected(s, fileType, name).pdf == s.pdf
    ensures StartsWith(fileType, "image/") ==>
      var r := ImageLoaded(ImageFileSelected(s, fileType), dataUrl, fileType);
      r.error.None? && r.image.dataUrl == Some(dataUrl) && r.image.mimeType == Some(fileType)
    ensures fileType == "application/pdf" ==>
      var r := PdfLoaded(PdfFileSelected(s, fileType, name), dataUrl, fileType);
      r.error.None? && r.pdf == PdfInput(Some(dataUrl), Some(fileType), s.pdf.prompt, Some(name))
  {
  }

  /** A failed read of an accepted file discards whatever was loaded
      before: the image or PDF action is then refused as if no file had
      ever been chosen, and the read error gives way to the refusal. */
  lemma FailedReadDiscardsEarlierMedia(s: Session, imageType: string, pdfType: string, name: string)
    requires StartsWith(imageType, "image/") && pdfType == "application/pdf"
    ensures var r := ImageReadFailed(ImageFileSelected(s, imageType), imageType);
      r.error == Some(ImageReadFailedMessage) && StartImage(r) == Done(r.(error := Some(NoImageMessage)))
    ensures var r := PdfReadFailed(PdfFileSelected(s, pdfType, name), pdfType);
      && r.error == Some(PdfReadFailedMessage) && r.pdf.fileName == Some(name)
      && StartPdf(r) == Done(r.(error := Some(NoPdfMessage)))
  {
  }
}
