/**
 * The Hoshi text field: a text field with a floating placeholder label and a
 * two-layer border along its lower edge, plus an error mode that borrows the
 * placeholder label to show a validation message.
 *
 * The control's state is kept in the fields of class HoshiTextField. Every
 * operation of the control is also given as a function on a snapshot of that
 * state (FieldState); the class's methods are proved to move the snapshot
 * exactly as those functions say, and the properties of the control are
 * lemmas about the functions. Animation blocks are instantaneous: each one
 * assigns its final values.
 */
module Hoshi {

  datatype Option<T> = None | Some(value: T)

  // ---------------------------------------------------------------------------
  // Geometry (CGPoint, CGSize, CGRect) and the other toolkit values the control
  // stores

  datatype Point = Point(x: real, y: real)
  datatype Size = Size(width: real, height: real)
  datatype Rect = Rect(origin: Point, size: Size)

  /** A colour, as the toolkit stores it: four components. */
  datatype Color = Color(red: real, green: real, blue: real, alpha: real)

  /** A font is known to the control only by its name and point size. */
  datatype Font = Font(name: string, pointSize: real)

  /** The part of the placeholder UILabel the control drives. A None text
      colour or font stands for the label's default. */
  datatype Label = Label(text: Option<string>, textColor: Option<Color>, font: Option<Font>,
                         origin: Point, scale: real)

  /** A border CALayer. */
  datatype Layer = Layer(frame: Rect, backgroundColor: Option<Color>, isHidden: bool)

  const Black := Color(0.0, 0.0, 0.0, 1.0)
  const DefaultPlaceholderFontSize: real := 12.0
  const ActiveBorderThickness: real := 2.0
  const InactiveBorderThickness: real := 0.5
  const TextFieldInsets := Point(0.0, 6.0)
  const ActivePlaceholderPoint := Point(0.0, -2.0)
  const InactivePlaceholderPoint := Point(0.0, 20.0)
  /** The label's scale transform while the field is being edited, and the identity. */
  const ActiveLabelScale: real := 0.75
  const IdentityScale: real := 1.0
  const ZeroRect := Rect(Point(0.0, 0.0), Size(0.0, 0.0))

  function Abs(x: real): real { if x < 0.0 then -x else x }

  /** CGRect's width and height are those of the standardized rectangle. */
  function Width(r: Rect): (w: real)
    ensures w >= 0.0 && (w == r.size.width || w == -r.size.width)
  {
    Abs(r.size.width)
  }

  function Height(r: Rect): (h: real)
    ensures h >= 0.0 && (h == r.size.height || h == -r.size.height)
  {
    Abs(r.size.height)
  }

  /** The strip of the given thickness along the bottom edge of the control. */
  function RectForBorder(frame: Rect, thickness: real): (r: Rect)
    ensures r.origin.x == 0.0
    ensures r.origin.y + r.size.height == Height(frame)
    ensures r.size.width == Width(frame) && r.size.height == thickness
  {
    Rect(Point(0.0, Height(frame) - thickness), Size(Width(frame), thickness))
  }

  /** The active border lies on the same bottom edge as the inactive one and covers it. */
  lemma ActiveBorderCoversInactive(frame: Rect)
    ensures var a, i := RectForBorder(frame, ActiveBorderThickness), RectForBorder(frame, InactiveBorderThickness);
      a.origin.x == i.origin.x && a.size.width == i.size.width &&
      a.origin.y + a.size.height == i.origin.y + i.size.height &&
      a.origin.y < i.origin.y
  {
  }

  /** CGRect.offsetBy: the same rectangle moved by (dx, dy). */
  function Offset(r: Rect, dx: real, dy: real): (o: Rect)
    ensures o.size == r.size
    ensures o.origin.x - r.origin.x == dx && o.origin.y - r.origin.y == dy
  {
    Rect(Point(r.origin.x + dx, r.origin.y + dy), r.size)
  }

  /** The rectangle the text is edited in: the bounds moved down by the text inset. */
  function EditingRect(bounds: Rect): (r: Rect)
    ensures r.size == bounds.size
    ensures r.origin == Point(bounds.origin.x, bounds.origin.y + 6.0)
  {
    Offset(bounds, TextFieldInsets.x, TextFieldInsets.y)
  }

  /** The rectangle the text is displayed in: the same as the editing rectangle. */
  function TextRect(bounds: Rect): (r: Rect)
    ensures r.size == bounds.size
    ensures r.origin == Point(bounds.origin.x, bounds.origin.y + 6.0)
  {
    Offset(bounds, TextFieldInsets.x, TextFieldInsets.y)
  }

  /** Text does not jump between editing and display, and moving the text
      rectangle back by the inset recovers the bounds. */
  lemma TextRectsAgree(bounds: Rect)
    ensures TextRect(bounds) == EditingRect(bounds)
    ensures Offset(EditingRect(bounds), -TextFieldInsets.x, -TextFieldInsets.y) == bounds
  {
  }

  // ---------------------------------------------------------------------------
  // The control's state as a value

  datatype FieldState = FieldState(
    // inspectable configuration
    borderInactiveColor: Option<Color>,
    borderActiveColor: Option<Color>,
    placeholderColor: Color,
    placeholderFontSize: real,
    placeholder: Option<string>,
    frame: Rect,
    // owned by the text field itself and changed by the toolkit or the user
    text: string,
    isFirstResponder: bool,
    font: Option<Font>,
    // private state
    placeholderFont: Option<Font>,
    placeholderLabelOriginalText: Option<string>,
    placeholderLabel: Label,
    inactiveBorderLayer: Layer,
    activeBorderLayer: Layer)

  /** A freshly created control: nothing drawn yet, label and layers at their defaults. */
  function Initial(frame: Rect, font: Option<Font>): (s: FieldState)
    ensures s.placeholderLabel.text.None? && s.placeholderLabelOriginalText.None?
    ensures s.placeholderColor == Black && s.placeholder.None? && s.text == []
    ensures s.placeholderLabel.scale == IdentityScale && !s.activeBorderLayer.isHidden
  {
    FieldState(None, None, Black, DefaultPlaceholderFontSize, None, frame, [], false, font,
               None, None,
               Label(None, None, None, Point(0.0, 0.0), IdentityScale),
               Layer(ZeroRect, None, false), Layer(ZeroRect, None, false))
  }

  /** showError: save the label's current text, show the message in the active
      border colour and reveal the active border. */
  function AfterShowError(s: FieldState, message: string): (r: FieldState)
    ensures r.placeholderLabel.text == Some(message)
    ensures r.placeholderLabel.textColor == s.borderActiveColor
    ensures !r.activeBorderLayer.isHidden
    ensures r.activeBorderLayer.frame == RectForBorder(s.frame, ActiveBorderThickness)
    ensures r.placeholderLabelOriginalText == s.placeholderLabel.text
    // nothing else changes
    ensures r.placeholderLabel.(text := s.placeholderLabel.text, textColor := s.placeholderLabel.textColor)
            == s.placeholderLabel
    ensures r.activeBorderLayer.backgroundColor == s.activeBorderLayer.backgroundColor
    ensures r.(placeholderLabelOriginalText := s.placeholderLabelOriginalText,
               placeholderLabel := s.placeholderLabel, activeBorderLayer := s.activeBorderLayer) == s
  {
    s.(placeholderLabelOriginalText := s.placeholderLabel.text,
       placeholderLabel := s.placeholderLabel.(textColor := s.borderActiveColor, text := Some(message)),
       activeBorderLayer := s.activeBorderLayer.(frame := RectForBorder(s.frame, ActiveBorderThickness),
                                                 isHidden := false))
  }

  /** hideError: put back the saved text if one was ever saved (the saved text
      is kept), recolour the label and hide the active border. */
  function AfterHideError(s: FieldState): (r: FieldState)
    ensures s.placeholderLabelOriginalText.Some? ==>
              r.placeholderLabel.text == s.placeholderLabelOriginalText
    ensures s.placeholderLabelOriginalText.None? ==>
              r.placeholderLabel.text == s.placeholderLabel.text
    ensures r.placeholderLabel.textColor == Some(s.placeholderColor)
    ensures r.activeBorderLayer.isHidden
    ensures r.placeholderLabelOriginalText == s.placeholderLabelOriginalText
    // nothing else changes
    ensures r.placeholderLabel.(text := s.placeholderLabel.text, textColor := s.placeholderLabel.textColor)
            == s.placeholderLabel
    ensures r.activeBorderLayer.(isHidden := s.activeBorderLayer.isHidden) == s.activeBorderLayer
    ensures r.(placeholderLabel := s.placeholderLabel, activeBorderLayer := s.activeBorderLayer) == s
  {
    var text := if s.placeholderLabelOriginalText != None then s.placeholderLabelOriginalText
                else s.placeholderLabel.text;
    s.(placeholderLabel := s.placeholderLabel.(text := text, textColor := Some(s.placeholderColor)),
       activeBorderLayer := s.activeBorderLayer.(isHidden := true))
  }

  /** updateBorder: both border layers take the current frame and colours, and
      the active border is hidden. The label and the saved text are untouched. */
  function AfterUpdateBorder(s: FieldState): (r: FieldState)
    ensures r.inactiveBorderLayer.frame == RectForBorder(s.frame, InactiveBorderThickness)
    ensures r.inactiveBorderLayer.backgroundColor == s.borderInactiveColor
    ensures r.inactiveBorderLayer.isHidden == s.inactiveBorderLayer.isHidden
    ensures r.activeBorderLayer == Layer(RectForBorder(s.frame, ActiveBorderThickness), s.borderActiveColor, true)
    ensures r.placeholderLabel == s.placeholderLabel
    ensures r.placeholderLabelOriginalText == s.placeholderLabelOriginalText
    ensures r.(inactiveBorderLayer := s.inactiveBorderLayer, activeBorderLayer := s.activeBorderLayer) == s
  {
    s.(inactiveBorderLayer := s.inactiveBorderLayer.(frame := RectForBorder(s.frame, InactiveBorderThickness),
                                                     backgroundColor := s.borderInactiveColor),
       activeBorderLayer := s.activeBorderLayer.(frame := RectForBorder(s.frame, ActiveBorderThickness),
                                                 backgroundColor := s.borderActiveColor,
                                                 isHidden := true))
  }

  /** animateViewsForTextEntry: with no text, the label shrinks, takes the
      placeholder font and docks at the active point; with text, nothing happens. */
  function AfterTextEntry(s: FieldState): (r: FieldState)
    ensures s.text == [] ==> r.placeholderLabel.origin == ActivePlaceholderPoint
    ensures s.text == [] ==> r.placeholderLabel.scale == ActiveLabelScale
    ensures s.text == [] ==> r.placeholderLabel.font == s.placeholderFont
    ensures s.text != [] ==> r == s
    ensures r.placeholderLabel.text == s.placeholderLabel.text
    ensures r.placeholderLabel.textColor == s.placeholderLabel.textColor
    ensures r.(placeholderLabel := s.placeholderLabel) == s
  {
    if s.text == [] then
      s.(placeholderLabel := s.placeholderLabel.(scale := ActiveLabelScale, font := s.placeholderFont,
                                                 origin := ActivePlaceholderPoint))
    else
      s
  }

  /** animateViewsForTextDisplay: with no text, the label returns to full size
      and, when the field has a font, takes it and docks at the inactive point;
      with text, nothing happens. */
  function AfterTextDisplay(s: FieldState): (r: FieldState)
    ensures s.text == [] ==> r.placeholderLabel.scale == IdentityScale
    ensures s.text == [] && s.font.Some? ==>
              r.placeholderLabel.origin == InactivePlaceholderPoint && r.placeholderLabel.font == s.font
    ensures s.font.None? ==> r.placeholderLabel.origin == s.placeholderLabel.origin
    ensures s.font.None? ==> r.placeholderLabel.font == s.placeholderLabel.font
    ensures s.text != [] ==> r == s
    ensures r.placeholderLabel.text == s.placeholderLabel.text
    ensures r.placeholderLabel.textColor == s.placeholderLabel.textColor
    ensures r.(placeholderLabel := s.placeholderLabel) == s
  {
    if s.text == [] then
      var shown := s.placeholderLabel.(scale := IdentityScale);
      if s.font.None? then s.(placeholderLabel := shown)
      else s.(placeholderLabel := shown.(font := s.font, origin := InactivePlaceholderPoint))
    else
      s
  }

  /** updatePlaceholder: the label always shows the placeholder in the
      placeholder colour; with a font it takes the field's font and, when the
      field is focused or holds text, runs the text-entry transition. */
  function AfterUpdatePlaceholder(s: FieldState): (r: FieldState)
    ensures r.placeholderLabel.text == s.placeholder
    ensures r.placeholderLabel.textColor == Some(s.placeholderColor)
    ensures r.placeholderLabelOriginalText == s.placeholderLabelOriginalText
    ensures s.font.None? ==> r.placeholderLabel.font == s.placeholderLabel.font
    ensures s.font.Some? ==>
              r.placeholderLabel.font == if s.isFirstResponder && s.text == [] then s.placeholderFont else s.font
    // the label moves and shrinks exactly when the field has a font, is focused and is empty
    ensures r.placeholderLabel.scale ==
              if s.font.Some? && s.isFirstResponder && s.text == [] then ActiveLabelScale
              else s.placeholderLabel.scale
    ensures r.placeholderLabel.origin ==
              if s.font.Some? && s.isFirstResponder && s.text == [] then ActivePlaceholderPoint
              else s.placeholderLabel.origin
    ensures r.(placeholderLabel := s.placeholderLabel) == s
  {
    var labelled := s.(placeholderLabel := s.placeholderLabel.(text := s.placeholder,
                                                               textColor := Some(s.placeholderColor)));
    if s.font.None? then
      labelled
    else
      var fonted := labelled.(placeholderLabel := labelled.placeholderLabel.(font := s.font));
      if s.isFirstResponder || s.text != [] then AfterTextEntry(fonted) else fonted
  }

  /** drawViewsForRect: dock the label at the inactive point, remember the
      placeholder font (the result of looking up the bundled font, which is
      absent when the font is not installed), then lay out the border and the
      placeholder. */
  function AfterDrawViews(s: FieldState, placeholderFont: Option<Font>): (r: FieldState)
    ensures r.placeholderFont == placeholderFont
    ensures r.placeholderLabel.text == s.placeholder
    ensures r.activeBorderLayer.isHidden
    ensures r.placeholderLabel.origin ==
              if s.font.Some? && s.isFirstResponder && s.text == [] then ActivePlaceholderPoint
              else InactivePlaceholderPoint
    ensures r.placeholderLabelOriginalText == s.placeholderLabelOriginalText
  {
    var docked := s.(placeholderLabel := s.placeholderLabel.(origin := InactivePlaceholderPoint),
                     placeholderFont := placeholderFont);
    AfterUpdatePlaceholder(AfterUpdateBorder(docked))
  }

  // ---------------------------------------------------------------------------
  // Everything that can happen to a control

  datatype Event =
    | BorderInactiveColorSet(borderColor: Option<Color>)
    | BorderActiveColorSet(borderColor: Option<Color>)
    | PlaceholderColorSet(color: Color)
    | PlaceholderFontSizeSet(fontSize: real)
    | PlaceholderSet(placeholder: Option<string>)
    | BoundsSet(bounds: Rect)
    | ErrorShown(message: string)
    | ErrorHidden
    | ViewsDrawn(placeholderFont: Option<Font>)
    | TextEntryAnimated
    | TextDisplayAnimated
      // changes the toolkit or the user make to the text field itself
    | TextChanged(text: string)
    | FocusChanged(focused: bool)
    | FontChanged(font: Option<Font>)

  /** The effect of one event. The property setters run their observers. */
  function Apply(s: FieldState, e: Event): (r: FieldState)
    // only showError saves the label's text, and only showError reveals the active border
    ensures e.ErrorShown? ==> r.placeholderLabelOriginalText == s.placeholderLabel.text
    ensures !e.ErrorShown? ==> r.placeholderLabelOriginalText == s.placeholderLabelOriginalText
    ensures !e.ErrorShown? && s.activeBorderLayer.isHidden ==> r.activeBorderLayer.isHidden
  {
    match e
    case BorderInactiveColorSet(c) => AfterUpdateBorder(s.(borderInactiveColor := c))
    case BorderActiveColorSet(c) => AfterUpdateBorder(s.(borderActiveColor := c))
    case PlaceholderColorSet(c) => AfterUpdatePlaceholder(s.(placeholderColor := c))
    case PlaceholderFontSizeSet(size) => AfterUpdatePlaceholder(s.(placeholderFontSize := size))
    case PlaceholderSet(p) => AfterUpdatePlaceholder(s.(placeholder := p))
    case BoundsSet(b) =>
      AfterUpdatePlaceholder(AfterUpdateBorder(s.(frame := Rect(s.frame.origin, b.size))))
    case ErrorShown(m) => AfterShowError(s, m)
    case ErrorHidden => AfterHideError(s)
    case ViewsDrawn(f) => AfterDrawViews(s, f)
    case TextEntryAnimated => AfterTextEntry(s)
    case TextDisplayAnimated => AfterTextDisplay(s)
    case TextChanged(t) => s.(text := t)
    case FocusChanged(b) => s.(isFirstResponder := b)
    case FontChanged(f) => s.(font := f)
  }

  /** The effect of a sequence of events, first to last. */
  function Run(s: FieldState, events: seq<Event>): (r: FieldState)
    // without showError the saved text is never touched
    ensures (forall i :: 0 <= i < |events| ==> !events[i].ErrorShown?) ==>
              r.placeholderLabelOriginalText == s.placeholderLabelOriginalText
    // the last showError decides what hideError will restore
    ensures |events| > 0 && events[|events| - 1].ErrorShown? ==>
              r.placeholderLabelOriginalText == Run(s, events[..|events| - 1]).placeholderLabel.text
    decreases |events|
  {
    if events == [] then s
    else
      assert |events| > 1 ==> events[..|events| - 1][1..] == events[1..][..|events| - 2];
      assert events[..|events| - 1] == [] || events[..|events| - 1][0] == events[0];
      Run(Apply(s, events[0]), events[1..])
  }

  // ---------------------------------------------------------------------------
  // The control, with its state held in fields updated in place

  class HoshiTextField {
    var borderInactiveColor: Option<Color>
    var borderActiveColor: Option<Color>
    var placeholderColor: Color
    var placeholderFontSize: real
    var placeholder: Option<string>
    var frame: Rect
    var text: string
    var isFirstResponder: bool
    var font: Option<Font>
    var placeholderFont: Option<Font>
    var placeholderLabelOriginalText: Option<string>
    var placeholderLabel: Label
    var inactiveBorderLayer: Layer
    var activeBorderLayer: Layer

    /** The control's state as a value. */
    function State(): FieldState
      reads this
    {
      FieldState(borderInactiveColor, borderActiveColor, placeholderColor, placeholderFontSize,
                 placeholder, frame, text, isFirstResponder, font, placeholderFont,
                 placeholderLabelOriginalText, placeholderLabel, inactiveBorderLayer, activeBorderLayer)
    }

    constructor (frame: Rect, font: Option<Font>)
      ensures State() == Initial(frame, font)
    {
      borderInactiveColor, borderActiveColor := None, None;
      placeholderColor, placeholderFontSize := Black, DefaultPlaceholderFontSize;
      placeholder := None;
      this.frame := frame;
      text, isFirstResponder := [], false;
      this.font := font;
      placeholderFont, placeholderLabelOriginalText := None, None;
      placeholderLabel := Label(None, None, None, Point(0.0, 0.0), IdentityScale);
      inactiveBorderLayer := Layer(ZeroRect, None, false);
      activeBorderLayer := Layer(ZeroRect, None, false);
    }

    method SetBorderInactiveColor(c: Option<Color>)
      modifies this
      ensures State() == Apply(old(State()), BorderInactiveColorSet(c))
    {
      borderInactiveColor := c;
      UpdateBorder();
    }

    method SetBorderActiveColor(c: Option<Color>)
      modifies this
      ensures State() == Apply(old(State()), BorderActiveColorSet(c))
    {
      borderActiveColor := c;
      UpdateBorder();
    }

    method SetPlaceholderColor(c: Color)
      modifies this
      ensures State() == Apply(old(State()), PlaceholderColorSet(c))
    {
      placeholderColor := c;
      UpdatePlaceholder();
    }

    method SetPlaceholderFontSize(size: real)
      modifies this
      ensures State() == Apply(old(State()), PlaceholderFontSizeSet(size))
    {
      placeholderFontSize := size;
      UpdatePlaceholder();
    }

    method SetPlaceholder(p: Option<string>)
      modifies this
      ensures State() == Apply(old(State()), PlaceholderSet(p))
    {
      placeholder := p;
      UpdatePlaceholder();
    }

    method SetBounds(b: Rect)
      modifies this
      ensures State() == Apply(old(State()), BoundsSet(b))
    {
      frame := Rect(frame.origin, b.size);
      UpdateBorder();
      UpdatePlaceholder();
    }

    method ShowError(message: string)
      modifies this
      ensures State() == AfterShowError(old(State()), message)
    {
      placeholderLabelOriginalText := placeholderLabel.text;
      placeholderLabel := placeholderLabel.(textColor := borderActiveColor);
      placeholderLabel := placeholderLabel.(text := Some(message));
      activeBorderLayer := activeBorderLayer.(frame := RectForBorder(frame, ActiveBorderThickness));
      activeBorderLayer := activeBorderLayer.(isHidden := false);
    }

    method HideError()
      modifies this
      ensures State() == AfterHideError(old(State()))
    {
      placeholderLabel := placeholderLabel.(text := if placeholderLabelOriginalText != None
                                                    then placeholderLabelOriginalText
                                                    else placeholderLabel.text);
      placeholderLabel := placeholderLabel.(textColor := Some(placeholderColor));
      activeBorderLayer := activeBorderLayer.(isHidden := true);
    }

    method DrawViewsForRect(bundledFont: Option<Font>)
      modifies this
      ensures State() == AfterDrawViews(old(State()), bundledFont)
    {
      placeholderLabel := placeholderLabel.(origin := InactivePlaceholderPoint);
      placeholderFont := bundledFont;
      UpdateBorder();
      UpdatePlaceholder();
    }

    method AnimateViewsForTextEntry()
      modifies this
      ensures State() == AfterTextEntry(old(State()))
    {
      if text == [] {
        placeholderLabel := placeholderLabel.(scale := ActiveLabelScale);
        placeholderLabel := placeholderLabel.(font := placeholderFont);
        placeholderLabel := placeholderLabel.(origin := ActivePlaceholderPoint);
      }
    }

    method AnimateViewsForTextDisplay()
      modifies this
      ensures State() == AfterTextDisplay(old(State()))
    {
      if text == [] {
        placeholderLabel := placeholderLabel.(scale := IdentityScale);
        if font != None {
          placeholderLabel := placeholderLabel.(font := font);
          placeholderLabel := placeholderLabel.(origin := InactivePlaceholderPoint);
        }
      }
    }

    method UpdateBorder()
      modifies this
      ensures State() == AfterUpdateBorder(old(State()))
    {
      inactiveBorderLayer := inactiveBorderLayer.(frame := RectForBorder(frame, InactiveBorderThickness));
      inactiveBorderLayer := inactiveBorderLayer.(backgroundColor := borderInactiveColor);
      activeBorderLayer := activeBorderLayer.(frame := RectForBorder(frame, ActiveBorderThickness));
      activeBorderLayer := activeBorderLayer.(backgroundColor := borderActiveColor);
      activeBorderLayer := activeBorderLayer.(isHidden := true);
    }

    method UpdatePlaceholder()
      modifies this
      ensures State() == AfterUpdatePlaceholder(old(State()))
    {
      placeholderLabel := placeholderLabel.(text := placeholder);
      placeholderLabel := placeholderLabel.(textColor := Some(placeholderColor));
      if font == None {
        return;
      }
      placeholderLabel := placeholderLabel.(font := font);
      if isFirstResponder || text != [] {
        AnimateViewsForTextEntry();
      }
    }
  }

  // ---------------------------------------------------------------------------
  // The error mode

  /** Showing an error and hiding it again restores the label's text, whatever
      the message, and leaves the placeholder colour and a hidden active border. */
  lemma ShowHideRoundTrip(s: FieldState, message: string)
    requires s.placeholderLabel.text.Some?
    ensures var r := AfterHideError(AfterShowError(s, message));
      r.placeholderLabel.text == s.placeholderLabel.text &&
      r.placeholderLabel.textColor == Some(s.placeholderColor) &&
      r.activeBorderLayer.isHidden &&
      r.placeholderLabel.origin == s.placeholderLabel.origin
  {
  }

  /** A label without text cannot be restored: showError saves nothing, so
      hideError leaves the message on the label. */
  lemma ShowHideWithoutLabelTextKeepsMessage(s: FieldState, message: string)
    requires s.placeholderLabel.text.None?
    ensures AfterHideError(AfterShowError(s, message)).placeholderLabel.text == Some(message)
  {
  }

  /** A second showError saves the first message, so hideError then shows the
      first message rather than the text from before the errors. */
  lemma DoubleShowErrorLosesOriginalText(s: FieldState, first: string, second: string)
    ensures AfterHideError(AfterShowError(AfterShowError(s, first), second)).placeholderLabel.text
            == Some(first)
  {
  }

  /** hideError is idempotent. */
  lemma HideErrorIdempotent(s: FieldState)
    ensures AfterHideError(AfterHideError(s)) == AfterHideError(s)
  {
  }

  /** A border update (a border colour or the bounds changed) takes the error
      border away but leaves the error message on the label. */
  lemma UpdateBorderKeepsErrorText(s: FieldState, message: string)
    ensures var r := AfterUpdateBorder(AfterShowError(s, message));
      r.activeBorderLayer.isHidden && r.placeholderLabel.text == Some(message)
  {
  }

  /** A placeholder update replaces a shown error message with the placeholder,
      yet hideError still brings back the text saved when the error was shown. */
  lemma UpdatePlaceholderOverwritesError(s: FieldState, message: string)
    requires s.placeholderLabel.text.Some?
    ensures AfterUpdatePlaceholder(AfterShowError(s, message)).placeholderLabel.text == s.placeholder
    ensures AfterHideError(AfterUpdatePlaceholder(AfterShowError(s, message))).placeholderLabel.text
            == s.placeholderLabel.text
  {
  }

  // ---------------------------------------------------------------------------
  // Invariants over every sequence of events

  /** The label's scale is one of the two the transitions use. */
  ghost predicate ScaleValid(s: FieldState)
  {
    s.placeholderLabel.scale == ActiveLabelScale || s.placeholderLabel.scale == IdentityScale
  }

  /** Once drawn: the label is docked at one of its two points and both
      borders sit on the bottom edge of the current frame. */
  ghost predicate LaidOut(s: FieldState)
  {
    && ScaleValid(s)
    && (s.placeholderLabel.origin == ActivePlaceholderPoint || s.placeholderLabel.origin == InactivePlaceholderPoint)
    && s.inactiveBorderLayer.frame == RectForBorder(s.frame, InactiveBorderThickness)
    && s.activeBorderLayer.frame == RectForBorder(s.frame, ActiveBorderThickness)
  }

  lemma ApplyPreservesScale(s: FieldState, e: Event)
    requires ScaleValid(s)
    ensures ScaleValid(Apply(s, e))
  {
  }

  lemma {:induction false} RunPreservesScale(s: FieldState, events: seq<Event>)
    requires ScaleValid(s)
    ensures ScaleValid(Run(s, events))
    decreases |events|
  {
    if events != [] {
      ApplyPreservesScale(s, events[0]);
      RunPreservesScale(Apply(s, events[0]), events[1..]);
    }
  }

  /** A new control's label is at full size. */
  lemma InitialScaleValid(frame: Rect, font: Option<Font>)
    ensures ScaleValid(Initial(frame, font))
  {
  }

  /** Drawing lays the control out. */
  lemma DrawingLaysOut(s: FieldState, placeholderFont: Option<Font>)
    requires ScaleValid(s)
    ensures LaidOut(AfterDrawViews(s, placeholderFont))
  {
  }

  lemma ApplyPreservesLaidOut(s: FieldState, e: Event)
    requires LaidOut(s)
    ensures LaidOut(Apply(s, e))
  {
  }

  lemma {:induction false} RunPreservesLaidOut(s: FieldState, events: seq<Event>)
    requires LaidOut(s)
    ensures LaidOut(Run(s, events))
    decreases |events|
  {
    if events != [] {
      ApplyPreservesLaidOut(s, events[0]);
      RunPreservesLaidOut(Apply(s, events[0]), events[1..]);
    }
  }

  /** Only showError reveals the active border. */
  lemma {:induction false} BorderStaysHiddenWithoutError(s: FieldState, events: seq<Event>)
    requires s.activeBorderLayer.isHidden
    requires forall i :: 0 <= i < |events| ==> !events[i].ErrorShown?
    ensures Run(s, events).activeBorderLayer.isHidden
    decreases |events|
  {
    if events != [] {
      BorderStaysHiddenWithoutError(Apply(s, events[0]), events[1..]);
    }
  }

  /** With text in the field, neither transition moves or resizes the label. */
  lemma TransitionsKeepFilledLabel(s: FieldState)
    requires s.text != []
    ensures AfterTextEntry(s).placeholderLabel == s.placeholderLabel
    ensures AfterTextDisplay(s).placeholderLabel == s.placeholderLabel
  {
  }

  /** With an empty field and a font, entry then display brings the label back
      to the inactive point at full size. */
  lemma EntryDisplayRoundTrip(s: FieldState)
    requires s.text == [] && s.font.Some?
    ensures AfterTextDisplay(AfterTextEntry(s)).placeholderLabel.origin == InactivePlaceholderPoint
    ensures AfterTextDisplay(AfterTextEntry(s)).placeholderLabel.scale == IdentityScale
  {
  }
}
