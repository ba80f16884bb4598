/** The LaTeX editor (components/LatexCodeView.tsx): its local text buffer,
    kept in step with the document it is given, the selection it publishes,
    and the highlight it draws over the selection while the editor is not
    focused. */
module LatexCodeView {
  import opened Wrappers
  import opened JsStrings
  import EditSession

  /** The editor's own state: the text shown in the textarea and whether the
      textarea has focus. */
  datatype View = View(displayed: string, focused: bool)

  /** The three parts the highlight layer draws: the text before the
      selection, the highlighted text, and the text after it. */
  datatype Segments = Segments(before: string, selected: string, after: string)

  /** The effect run when the `latexCode` prop changes: a value that differs
      from the buffer replaces it. */
  function SyncFromProp(v: View, latexCode: string): (r: View)
    ensures r.displayed == latexCode
    ensures r.focused == v.focused
    ensures v.displayed == latexCode ==> r == v
  {
    if latexCode != v.displayed then v.(displayed := latexCode) else v
  }

  /** `handleInputChange`: the typed text becomes the buffer, and the same
      text is handed to the parent. */
  function InputChange(v: View, newCode: string): (r: (View, string))
    ensures r.0.displayed == newCode && r.1 == newCode
    ensures r.0.focused == v.focused
  {
    (v.(displayed := newCode), newCode)
  }

  /** The parent's echo of a user edit does not disturb the buffer: the
      document the parent stores is the buffer already, so the effect
      leaves the view alone. */
  lemma EchoLeavesBuffer(v: View, newCode: string)
    ensures var (typed, notified) := InputChange(v, newCode);
      SyncFromProp(typed, notified) == typed
  {
  }

  /** `handleSelect`: the selection the textarea reports, published with
      its text cut from the textarea's value. */
  function CaptureSelection(value: string, start: nat, end: nat): (sel: EditSession.Selection)
    ensures sel.start == start && sel.end == end
    ensures start <= end <= |value| ==> sel.text == value[start..end]
    ensures |sel.text| <= |value|
  {
    EditSession.Selection(Substring(value, start, end), start, end)
  }

  /** `showCustomHighlight`: the editor is not focused and both offsets are
      known and differ. */
  function ShowHighlight(focused: bool, start: Option<nat>, end: Option<nat>): (shown: bool)
    ensures focused ==> !shown
    ensures start.None? || end.None? ==> !shown
    ensures start.Some? && end.Some? && start.value == end.value ==> !shown
    ensures !focused && start.Some? && end.Some? && start.value != end.value ==> shown
  {
    !focused && start.Some? && end.Some? && start.value != end.value
  }

  /** `renderContentForHighlightLayer`: nothing when the highlight is hidden,
      otherwise the canonical document cut at the two offsets with
      `substring`. */
  function HighlightLayer(latexCode: string, focused: bool, start: Option<nat>, end: Option<nat>): (r: Option<Segments>)
    ensures r.Some? <==> ShowHighlight(focused, start, end)
    ensures r.Some? && start.value <= end.value <= |latexCode| ==>
      r.value == Segments(latexCode[..start.value], latexCode[start.value..end.value], latexCode[end.value..])
  {
    if !ShowHighlight(focused, start, end) then None
    else
      var s, e := start.value, end.value;
      Some(Segments(Substring(latexCode, 0, s), Substring(latexCode, s, e), Substring(latexCode, e, |latexCode|)))
  }

  /** The drawn layer is the document exactly when the clamped offsets are
      in order; this includes offsets left over from a longer document.
      Reversed offsets draw the text between them twice. */
  lemma {:induction false} HighlightCoversDocument(latexCode: string, focused: bool, start: nat, end: nat)
    requires ShowHighlight(focused, Some(start), Some(end))
    ensures var g := HighlightLayer(latexCode, focused, Some(start), Some(end)).value;
      (g.before + g.selected + g.after == latexCode) <==> (Clamp(start, |latexCode|) <= Clamp(end, |latexCode|))
  {
    var n := |latexCode|;
    var a, b := Clamp(start, n), Clamp(end, n);
    var g := HighlightLayer(latexCode, focused, Some(start), Some(end)).value;
    if a <= b {
      SubstringPiecesJoin(latexCode, start, end);
    } else {
      assert |g.before| == a && |g.selected| == a - b && |g.after| == n - b;
      assert |g.before + g.selected + g.after| > n;
    }
  }

  /** The highlighted part is the text the selection was captured from,
      as long as the document has not changed since. */
  lemma HighlightShowsCapturedText(latexCode: string, start: nat, end: nat)
    requires start < end <= |latexCode|
    ensures var sel := CaptureSelection(latexCode, start, end);
      HighlightLayer(latexCode, false, Some(sel.start), Some(sel.end)).value.selected == sel.text
  {
  }
}
