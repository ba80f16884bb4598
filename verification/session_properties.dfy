/** Properties of the application as a whole: the prompt controls against
    the handlers they launch, and the handlers fed with what the generation
    client returns. */
module SessionProperties {
  import opened Wrappers
  import opened JsStrings
  import opened EditSession
  import GeminiService
  import PromptControls
  import LatexCodeView

  /** The offsets App hands to the editor: `null` when nothing is selected. */
  function SelectionOffsets(s: Session): (offsets: (Option<nat>, Option<nat>))
    ensures offsets.0.Some? <==> s.selection.Some?
    ensures offsets.1.Some? <==> s.selection.Some?
    ensures s.selection.Some? ==> offsets.0.value == s.selection.value.start && offsets.1.value == s.selection.value.end
  {
    match s.selection
    case None => (None, None)
    case Some(sel) => (Some(sel.start), Some(sel.end))
  }

  /** When nothing is loading, a button is enabled exactly when its handler
      gets past its checks. */
  lemma ButtonsMatchHandlerChecks(s: Session)
    requires !s.isLoading
    ensures !PromptControls.UpdateDisabled(s.isLoading, s.prompt) <==> StartUpdate(s).Awaiting?
    ensures !PromptControls.ModifyDisabled(s.isLoading, s.prompt, IsTextSelected(s)) <==> StartModify(s).Awaiting?
  {
  }

  /** The modify button names the missing selection first, as the handler
      does: the title and the handler's error agree on which check fails. */
  lemma ModifyTitleAgreesWithHandler(s: Session)
    requires !s.isLoading && !IsTextSelected(s)
    ensures StartModify(s).session.error == Some(NoSelectionMessage)
    ensures PromptControls.ModifyTitle(s.isLoading, s.prompt, IsTextSelected(s)) != PromptControls.BlankPromptTitle
  {
    assert |PromptControls.NothingReadyTitle| != |PromptControls.BlankPromptTitle|;
    assert |PromptControls.NoSelectionTitle| != |PromptControls.BlankPromptTitle|;
  }

  /** Enter launches an update only when the update handler goes ahead. */
  lemma EnterLaunchesUpdate(s: Session, key: string, shift: bool)
    requires PromptControls.HandleKeyDown(key, shift, s.prompt, s.isLoading, IsTextSelected(s)).launch.Some?
    ensures StartUpdate(s).Awaiting?
  {
  }

  /** While an action is in flight the controls offer no way to start
      another one, although the handlers themselves would accept it. */
  lemma BusyGuardIsInTheControls(s: Session, kind: ActionKind, key: string, shift: bool)
    requires BusyWith(s, kind)
    ensures PromptControls.UpdateDisabled(s.isLoading, s.prompt)
    ensures PromptControls.ModifyDisabled(s.isLoading, s.prompt, IsTextSelected(s))
    ensures PromptControls.HandleKeyDown(key, shift, s.prompt, s.isLoading, IsTextSelected(s)).launch.None?
    ensures !IsBlank(s.prompt) ==> StartUpdate(s).Awaiting?
  {
  }

  /** A missing key reaches the user verbatim, whatever the action and
      whatever the model would have said. */
  lemma MissingKeyShownVerbatim(s: Session, request: Request, apiKey: Option<string>, reply: GeminiService.ModelReply)
    requires apiKey.None? || apiKey.value == ""
    ensures Settle(s, request, GeminiService.Generate(apiKey, reply)).error == Some(GeminiService.KeyMissingMessage)
  {
    assert GeminiService.KeyMissingMessage[..|GeminiService.KeyMissingMarker|] == GeminiService.KeyMissingMarker;
  }

  /** A quota error raised by the model, in any spelling, is shown as the
      quota message behind the action's prefix, and the document and every
      input stay as they were. */
  lemma QuotaErrorKeepsDocument(s: Session, request: Request, key: string, message: string, spelling: string)
    requires key != ""
    requires ToLowerCase(spelling) == "quota" && Includes(message, spelling)
    requires !StartsWith(message, GeminiService.KeyMissingMarker) && !Includes(message, "API key not valid")
    ensures var r := Settle(s, request, GeminiService.Generate(Some(key), GeminiService.Raised(message)));
      && r.error == Some(FailurePrefix(KindOf(request)) + GeminiService.QuotaMessage)
      && r.document == s.document && r.prompt == s.prompt && r.selection == s.selection
      && r.image == s.image && r.pdf == s.pdf && Idle(r)
  {
    GeminiService.QuotaTestIgnoresCase(message, spelling);
    GeminiService.DiffersAt(GeminiService.QuotaMessage, GeminiService.KeyMissingMarker, 3);
  }

  /** A fenced reply to an update becomes the document without its fence. */
  lemma FencedReplyUpdatesDocument(s: Session, key: string, lead: string, tag: string, ws1: string, x: string, ws2: string, trail: string)
    requires !IsBlank(s.prompt) && key != ""
    requires AllWhitespace(lead) && AllWhitespace(ws1) && AllWhitespace(ws2) && AllWhitespace(trail)
    requires tag == "" || tag == "latex" || tag == "tex"
    requires Trim(x) != ""
    requires tag == "" && ws1 == "" ==> !StartsWith(x, "latex") && !StartsWith(x, "tex")
    ensures var l := StartUpdate(s);
      var reply := GeminiService.Replied(Some(lead + GeminiService.FencedBlock(tag, ws1 + x + ws2) + trail));
      var r := Settle(l.session, l.request, GeminiService.Generate(Some(key), reply));
      r.document == Trim(x) && r.prompt == "" && r.error.None? && Idle(r)
  {
    GeminiService.CleanStripsFence(lead, tag, ws1, x, ws2, trail);
  }

  /** A plain reply to a rewrite is spliced between the text before and
      after the selection, and the highlight disappears with the
      selection. */
  lemma PlainReplySplicedIntoSelection(s: Session, key: string, snippet: string, focused: bool)
    requires IsTextSelected(s) && !IsBlank(s.prompt) && key != ""
    requires snippet != "" && IsTrimmed(snippet) && !GeminiService.IsFenceWrapped(snippet)
    requires s.selection.value.start <= s.selection.value.end <= |s.document|
    ensures var l := StartModify(s);
      var r := Settle(l.session, l.request, GeminiService.Generate(Some(key), GeminiService.Replied(Some(snippet))));
      var sel := s.selection.value;
      && r.document == s.document[..sel.start] + snippet + s.document[sel.end..]
      && r.selection.None?
      && !LatexCodeView.ShowHighlight(focused, SelectionOffsets(r).0, SelectionOffsets(r).1)
  {
    GeminiService.CleanKeepsPlainText(snippet);
  }

  /** An empty rewrite is reported as an error and never deletes the
      selected text: the document and the selection stay as they were. */
  lemma EmptySnippetIsNotDeletion(s: Session, key: string, text: Option<string>)
    requires IsTextSelected(s) && !IsBlank(s.prompt) && key != ""
    requires text.None? || AllWhitespace(text.value)
    ensures var l := StartModify(s);
      var r := Settle(l.session, l.request, GeminiService.Generate(Some(key), GeminiService.Replied(text)));
      && r.document == s.document && r.selection == s.selection && r.prompt == s.prompt
      && r.error == Some("Failed to modify selected code: " + GeminiService.HandleApiError(GeminiService.EmptyResponseMessage))
  {
    GeminiService.EmptyReplyIsAnError(key, text);
  }
}
