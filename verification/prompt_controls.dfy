/** The prompt box and its two buttons (components/PromptControls.tsx): when
    the Enter key launches an update, when each button is enabled, and
    which explanation the modify button shows. These are the only guard
    against launching an action while another is in flight. */
module PromptControls {
  import opened Wrappers
  import opened JsStrings

  /** What the controls can launch. */
  datatype Trigger = TriggerUpdate | TriggerModify

  /** The effect of a key press in the prompt box: whether the default
      (a line break) is suppressed, and what is launched. */
  datatype KeyEffect = KeyEffect(preventDefault: bool, launch: Option<Trigger>)

  const LoadingTitle := "Processing your request..."
  const NothingReadyTitle := "Select text in the editor and enter a modification prompt to enable this."
  const NoSelectionTitle := "Select text in the editor to enable this option."
  const BlankPromptTitle := "Enter a prompt describing how to modify the selected text."
  const UpdateBlankTitle := "Enter a prompt to describe changes for the whole presentation (Gujarati output expected)."
  const UpdateReadyTitle := "Update the entire presentation based on your prompt (Gujarati output expected)."

  /** `handleKeyDown`: Enter without Shift never inserts a line break, and
      launches an update only when nothing is loading, the prompt is not
      blank and no text is selected. */
  function HandleKeyDown(key: string, shift: bool, prompt: string, isLoading: bool, isTextSelected: bool): (e: KeyEffect)
    ensures e.preventDefault <==> key == "Enter" && !shift
    ensures e.launch.Some? ==> e.preventDefault && e.launch.value == TriggerUpdate
    ensures e.launch.Some? <==> e.preventDefault && !isLoading && !IsBlank(prompt) && !isTextSelected
  {
    if key == "Enter" && !shift then
      if !isLoading && !IsBlank(prompt) && !isTextSelected then KeyEffect(true, Some(TriggerUpdate))
      else KeyEffect(true, None)
    else KeyEffect(false, None)
  }

  /** The prompt box is disabled while loading. */
  function PromptDisabled(isLoading: bool): (disabled: bool)
    ensures disabled == isLoading
  {
    isLoading
  }

  /** The update button is disabled while loading or for a blank prompt. */
  function UpdateDisabled(isLoading: bool, prompt: string): (disabled: bool)
    ensures PromptDisabled(isLoading) ==> disabled
    ensures !isLoading ==> (disabled <==> IsBlank(prompt))
  {
    isLoading || IsBlank(prompt)
  }

  /** The modify button is also disabled when no text is selected. */
  function ModifyDisabled(isLoading: bool, prompt: string, isTextSelected: bool): (disabled: bool)
    ensures UpdateDisabled(isLoading, prompt) ==> disabled
    ensures disabled <==> UpdateDisabled(isLoading, prompt) || !isTextSelected
  {
    isLoading || IsBlank(prompt) || !isTextSelected
  }

  /** The title of the update button. */
  function UpdateTitle(prompt: string): (t: string)
    ensures t == UpdateBlankTitle <==> IsBlank(prompt)
    ensures t == UpdateReadyTitle <==> !IsBlank(prompt)
  {
    assert |UpdateBlankTitle| != |UpdateReadyTitle|;
    if IsBlank(prompt) then UpdateBlankTitle else UpdateReadyTitle
  }

  /** `modifyButtonTitle`: the first reason that applies, loading before the
      missing selection and prompt together, before the missing selection,
      before the blank prompt; the empty title when the button is enabled. */
  function ModifyTitle(isLoading: bool, prompt: string, isTextSelected: bool): (t: string)
    ensures t == "" <==> !ModifyDisabled(isLoading, prompt, isTextSelected)
    ensures isLoading ==> t == LoadingTitle
    ensures !isLoading && !isTextSelected ==>
      t == (if IsBlank(prompt) then NothingReadyTitle else NoSelectionTitle)
    ensures !isLoading && isTextSelected && IsBlank(prompt) ==> t == BlankPromptTitle
  {
    if isLoading then LoadingTitle
    else if !isTextSelected && IsBlank(prompt) then NothingReadyTitle
    else if !isTextSelected then NoSelectionTitle
    else if IsBlank(prompt) then BlankPromptTitle
    else ""
  }

  /** Enter launches only what the update button would: whenever it
      launches, the button is enabled, and it never launches the modify
      action. */
  lemma EnterActsLikeUpdateButton(key: string, shift: bool, prompt: string, isLoading: bool, isTextSelected: bool)
    ensures var e := HandleKeyDown(key, shift, prompt, isLoading, isTextSelected);
      && (e.launch.Some? ==> !UpdateDisabled(isLoading, prompt))
      && e.launch != Some(TriggerModify)
  {
  }

  /** With a selection, Enter launches nothing even though the update button
      is enabled: the two disagree exactly there. */
  lemma EnterAndButtonDisagreeOnSelection(prompt: string, isTextSelected: bool)
    requires !IsBlank(prompt)
    ensures HandleKeyDown("Enter", false, prompt, false, isTextSelected).launch.None?
        <==> isTextSelected && !UpdateDisabled(false, prompt)
  {
  }

  /** Shift+Enter, and any other key, keeps its default and launches
      nothing. */
  lemma OtherKeysLaunchNothing(key: string, shift: bool, prompt: string, isLoading: bool, isTextSelected: bool)
    requires key != "Enter" || shift
    ensures HandleKeyDown(key, shift, prompt, isLoading, isTextSelected) == KeyEffect(false, None)
  {
  }

  /** While loading nothing in the controls can be used: the prompt box, both
      buttons and the Enter key are all off. */
  lemma LoadingLocksControls(key: string, shift: bool, prompt: string, isTextSelected: bool)
    ensures PromptDisabled(true) && UpdateDisabled(true, prompt) && ModifyDisabled(true, prompt, isTextSelected)
    ensures HandleKeyDown(key, shift, prompt, true, isTextSelected).launch.None?
    ensures ModifyTitle(true, prompt, isTextSelected) == LoadingTitle
  {
  }
}
