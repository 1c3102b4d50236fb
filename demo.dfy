/**
 * The demonstration app's text-field delegate: editing a field hides its
 * error, and leaving a field that holds text shows the error "Bad Name!".
 * This is host-application policy over the Hoshi control, given here as a
 * scenario that exercises the control's error mode.
 */
module Demo {
  import opened Hoshi

  const ErrorMessage := "Bad Name!"

  /** textFieldDidBeginEditing: any error shown on the field is hidden. */
  function DidBeginEditing(s: FieldState): (r: FieldState)
    ensures r.activeBorderLayer.isHidden
    ensures r.placeholderLabel.textColor == Some(s.placeholderColor)
    ensures s.placeholderLabelOriginalText.Some? ==> r.placeholderLabel.text == s.placeholderLabelOriginalText
    ensures r.text == s.text
  {
    AfterHideError(s)
  }

  /** textFieldDidEndEditing: a field left holding text shows the error; an
      empty field is left alone. */
  function DidEndEditing(s: FieldState): (r: FieldState)
    ensures s.text != [] ==> r.placeholderLabel.text == Some(ErrorMessage)
    ensures s.text != [] ==> !r.activeBorderLayer.isHidden
    ensures s.text != [] ==> r.placeholderLabelOriginalText == s.placeholderLabel.text
    ensures s.text == [] ==> r == s
  {
    if s.text != [] then AfterShowError(s, ErrorMessage) else s
  }

  /** The delegate, calling into the control as the app does. */
  method TextFieldDidBeginEditing(field: HoshiTextField)
    modifies field
    ensures field.State() == DidBeginEditing(old(field.State()))
  {
    field.HideError();
  }

  method TextFieldDidEndEditing(field: HoshiTextField)
    modifies field
    ensures field.State() == DidEndEditing(old(field.State()))
  {
    if field.text != [] {
      field.ShowError(ErrorMessage);
    }
  }

  /** One editing session: editing begins, the user leaves the text `typed`
      in the field, editing ends. */
  function EditingSession(s: FieldState, typed: string): FieldState
  {
    DidEndEditing(DidBeginEditing(s).(text := typed))
  }

  /** Whatever was typed, the error raised at the end of one session is taken
      away when the next session begins, and the label shows again what it
      showed during the first session. */
  lemma NextSessionClearsError(s: FieldState, typed: string)
    requires DidBeginEditing(s).placeholderLabel.text.Some?
    ensures var r := DidBeginEditing(EditingSession(s, typed));
      r.placeholderLabel.text == DidBeginEditing(s).placeholderLabel.text &&
      r.activeBorderLayer.isHidden &&
      r.placeholderLabel.textColor == Some(s.placeholderColor)
  {
    var during := DidBeginEditing(s).(text := typed);
    if typed != [] {
      ShowHideRoundTrip(during, ErrorMessage);
    }
  }

  /** A field left empty never shows the error: the label stays as editing
      left it and the active border stays hidden. */
  lemma EmptyFieldShowsNoError(s: FieldState)
    ensures EditingSession(s, []).activeBorderLayer.isHidden
    ensures EditingSession(s, []).placeholderLabel == DidBeginEditing(s).placeholderLabel
  {
  }

  /** A cell of the table: a control made for the cell's frame, whose label
      text and placeholder are both set to the cell's name. */
  function CellField(frame: Rect, font: Option<Font>, name: string): (s: FieldState)
    ensures s.placeholderLabel.text == Some(name) && s.placeholder == Some(name)
    ensures s.placeholderLabelOriginalText.None? && s.text == []
  {
    var made := Initial(frame, font);
    Apply(made.(placeholderLabel := made.placeholderLabel.(text := Some(name))), PlaceholderSet(Some(name)))
  }

  /** The cell's text field, set up as the table's data source does. */
  method MakeCellField(frame: Rect, font: Option<Font>, name: string) returns (field: HoshiTextField)
    ensures fresh(field)
    ensures field.State() == CellField(frame, font, name)
  {
    field := new HoshiTextField(frame, font);
    field.placeholderLabel := field.placeholderLabel.(text := Some(name));
    field.SetPlaceholder(Some(name));
  }

  /** A "Firstname" cell that was left holding a name shows "Bad Name!" in the
      active border colour; editing it again brings "Firstname" back. */
  lemma FirstnameScenario(frame: Rect, font: Option<Font>, typed: string)
    requires typed != []
    ensures var s := CellField(frame, font, "Firstname");
      && EditingSession(s, typed).placeholderLabel.text == Some(ErrorMessage)
      && EditingSession(s, typed).placeholderLabel.textColor == s.borderActiveColor
      && !EditingSession(s, typed).activeBorderLayer.isHidden
      && DidBeginEditing(EditingSession(s, typed)).placeholderLabel.text == Some("Firstname")
  {
    NextSessionClearsError(CellField(frame, font, "Firstname"), typed);
  }
}
