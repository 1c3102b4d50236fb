# Hoshi text field and hex colours, in Dafny

This project models two pieces of the TextFieldEffects library and its demo app, and proves properties of them.

The first is **the Hoshi text field** (module `Hoshi`, `hoshi_text_field.dfy`). It is a text field with:
- a floating placeholder label;
- two border layers along its lower edge, inactive and active;
- an error mode. `showError` saves the label's text, shows a message in the active border colour and reveals the active border. `hideError` puts the saved text back.

The control is the class `HoshiTextField`. Its fields are the state the Swift class keeps:
- the inspectable colours;
- the placeholder and the frame;
- the text, the focus and the font;
- the saved original text and the placeholder font;
- the label, reduced to the values the control drives: text, colour, font, origin and scale;
- the two border layers: frame, colour and hidden flag.

Each operation is a method that updates those fields in place. The method is proved to move the snapshot `State()` exactly as a function on `FieldState` says, for example `AfterShowError`. The properties of the control are the contracts of those functions and lemmas about them. The property setters run their `didSet` observers. The event function `Apply` and its iteration `Run` carry invariants over every sequence of events. Each animation block is an instantaneous assignment of its final values.

The second is **`UIColor(hex:)`** (module `HexColor`, `hex_color.dfy`). It is a pure parser from a string to `Rgb(red, green, blue)`, with byte channels, or to `FallbackGrey`. It works in four steps:
1. Trim whitespace and newlines, then upper-case.
2. Drop one leading `#`.
3. Require exactly six characters, or give the grey.
4. Scan a hexadecimal number and split it into three bytes.

The proofs cover these properties:
- Whitespace and letter case never matter.
- Only one `#` is removed.
- The wrong length gives the grey.
- Any bytes written as six hex digits, with or without `#` and in either case, parse back to the same bytes.
- Alpha is always one.

The third is **the demo app's delegate** (module `Demo`, `demo.dfy`). It is a scenario over the control: editing a field hides its error, and leaving a field that holds text shows "Bad Name!".

## Model

| member | source | states |
|---|---|---|
| Hoshi.RectForBorder | TextFieldEffects/TextFieldEffects/HoshiTextField.swift:179-181 | the border is the strip of the given thickness along the bottom edge of the frame: x is 0, its bottom is the frame's height, its width is the frame's width |
| Hoshi.ActiveBorderCoversInactive | TextFieldEffects/TextFieldEffects/HoshiTextField.swift:73 | the 2-point active border shares the bottom edge and width of the 0.5-point inactive border and reaches higher |
| Hoshi.EditingRect | TextFieldEffects/TextFieldEffects/HoshiTextField.swift:185-187 | the editing rectangle is the bounds moved down by the 6-point text inset, same size |
| Hoshi.TextRect | TextFieldEffects/TextFieldEffects/HoshiTextField.swift:189-191 | the text rectangle is the bounds moved down by the 6-point text inset, same size |
| Hoshi.TextRectsAgree | TextFieldEffects/TextFieldEffects/HoshiTextField.swift:185-191 | editing and display rectangles coincide, and moving back by the inset recovers the bounds |
| Hoshi.Initial | TextFieldEffects/TextFieldEffects/HoshiTextField.swift:43-81 | a new control has black placeholder colour, no placeholder, no saved text, an empty text and a full-size label |
| Hoshi.AfterShowError | TextFieldEffects/TextFieldEffects/HoshiTextField.swift:83-90 | the label shows the message in the active border colour, the active border is shown on the bottom edge, the label's previous text is saved, and nothing else changes |
| Hoshi.AfterHideError | TextFieldEffects/TextFieldEffects/HoshiTextField.swift:92-97 | the label takes the saved text if the saved text is set and otherwise keeps its text, takes the placeholder colour, the active border is hidden, the saved text is kept, nothing else changes |
| Hoshi.AfterUpdateBorder | TextFieldEffects/TextFieldEffects/HoshiTextField.swift:156-163 | both borders take the current frame and colours, the active border is hidden, and the label and saved text are untouched |
| Hoshi.AfterTextEntry | TextFieldEffects/TextFieldEffects/HoshiTextField.swift:115-132 | with an empty text the label shrinks to 0.75, takes the placeholder font and docks at (0,-2); with text nothing changes |
| Hoshi.AfterTextDisplay | TextFieldEffects/TextFieldEffects/HoshiTextField.swift:134-152 | with an empty text the label returns to full size, and with a font it also takes that font and docks at (0,20); without a font it does not move; with text nothing changes |
| Hoshi.AfterUpdatePlaceholder | TextFieldEffects/TextFieldEffects/HoshiTextField.swift:165-177 | the label always shows the placeholder in the placeholder colour and the saved text is kept; with a font the label takes the field's font, except that when the field is focused and empty the entry transition runs, so the label takes the placeholder font, shrinks to 0.75 and moves to the active point; otherwise its scale and position are unchanged, and without a font its font is too |
| Hoshi.AfterDrawViews | TextFieldEffects/TextFieldEffects/HoshiTextField.swift:101-113 | drawing records the placeholder font, shows the placeholder, hides the active border and docks the label at the inactive point, or the active point when focused, empty and with a font |
| Hoshi.Apply | TextFieldEffects/TextFieldEffects/HoshiTextField.swift:21-71 | each setter runs its observer; only showError changes the saved text, to the label's text at that moment, and only showError reveals a hidden active border |
| Hoshi.Run | TextFieldEffects/TextFieldEffects/HoshiTextField.swift:80-97 | over any sequence of events without showError the saved text is unchanged, and after a sequence ending in showError the saved text is the label's text just before it |
| Hoshi.HoshiTextField.constructor | TextFieldEffects/TextFieldEffects/HoshiTextField.swift:43-81 | the fields start as `Initial` says |
| Hoshi.HoshiTextField.SetBorderInactiveColor | TextFieldEffects/TextFieldEffects/HoshiTextField.swift:21-25 | setting the inactive border colour stores it and runs the border update |
| Hoshi.HoshiTextField.SetBorderActiveColor | TextFieldEffects/TextFieldEffects/HoshiTextField.swift:32-36 | setting the active border colour stores it and runs the border update |
| Hoshi.HoshiTextField.SetPlaceholderColor | TextFieldEffects/TextFieldEffects/HoshiTextField.swift:43-47 | setting the placeholder colour stores it and runs the placeholder update |
| Hoshi.HoshiTextField.SetPlaceholderFontSize | TextFieldEffects/TextFieldEffects/HoshiTextField.swift:54-58 | setting the placeholder font size stores it and runs the placeholder update |
| Hoshi.HoshiTextField.SetPlaceholder | TextFieldEffects/TextFieldEffects/HoshiTextField.swift:60-64 | setting the placeholder stores it and runs the placeholder update |
| Hoshi.HoshiTextField.SetBounds | TextFieldEffects/TextFieldEffects/HoshiTextField.swift:66-71 | setting the bounds resizes the frame, then runs the border update and the placeholder update, in that order |
| Hoshi.HoshiTextField.ShowError | TextFieldEffects/TextFieldEffects/HoshiTextField.swift:83-90 | the fields change exactly as `AfterShowError` says |
| Hoshi.HoshiTextField.HideError | TextFieldEffects/TextFieldEffects/HoshiTextField.swift:92-97 | the fields change exactly as `AfterHideError` says |
| Hoshi.HoshiTextField.DrawViewsForRect | TextFieldEffects/TextFieldEffects/HoshiTextField.swift:101-113 | the fields change exactly as `AfterDrawViews` says |
| Hoshi.HoshiTextField.AnimateViewsForTextEntry | TextFieldEffects/TextFieldEffects/HoshiTextField.swift:115-132 | the fields change exactly as `AfterTextEntry` says |
| Hoshi.HoshiTextField.AnimateViewsForTextDisplay | TextFieldEffects/TextFieldEffects/HoshiTextField.swift:134-152 | the fields change exactly as `AfterTextDisplay` says |
| Hoshi.HoshiTextField.UpdateBorder | TextFieldEffects/TextFieldEffects/HoshiTextField.swift:156-163 | the fields change exactly as `AfterUpdateBorder` says |
| Hoshi.HoshiTextField.UpdatePlaceholder | TextFieldEffects/TextFieldEffects/HoshiTextField.swift:165-177 | the fields change exactly as `AfterUpdatePlaceholder` says, including the early return without a font |
| Hoshi.ShowHideRoundTrip | TextFieldEffects/TextFieldEffects/HoshiTextField.swift:84-96 | from a label with text, showError of any message then hideError restores that text, the placeholder colour, a hidden active border and the label's position |
| Hoshi.ShowHideWithoutLabelTextKeepsMessage | TextFieldEffects/TextFieldEffects/HoshiTextField.swift:84-93 | from a label without text, nothing is saved, so hideError leaves the message on the label |
| Hoshi.DoubleShowErrorLosesOriginalText | TextFieldEffects/TextFieldEffects/HoshiTextField.swift:84-93 | showError twice then hideError shows the first message, not the text from before the errors |
| Hoshi.HideErrorIdempotent | TextFieldEffects/TextFieldEffects/HoshiTextField.swift:92-97 | hideError twice leaves the same state as once |
| Hoshi.UpdateBorderKeepsErrorText | TextFieldEffects/TextFieldEffects/HoshiTextField.swift:156-163 | a border update after showError hides the error border but the message stays on the label |
| Hoshi.UpdatePlaceholderOverwritesError | TextFieldEffects/TextFieldEffects/HoshiTextField.swift:165-167 | a placeholder update after showError replaces the message with the placeholder, and a later hideError still restores the saved text |
| Hoshi.ApplyPreservesScale | TextFieldEffects/TextFieldEffects/HoshiTextField.swift:123-140 | every event leaves the label at one of the two scales, 0.75 or 1 |
| Hoshi.RunPreservesScale | TextFieldEffects/TextFieldEffects/HoshiTextField.swift:123-140 | every sequence of events leaves the label at one of the two scales |
| Hoshi.InitialScaleValid | TextFieldEffects/TextFieldEffects/HoshiTextField.swift:123-140 | a new control's label, a plain UILabel of the base class with the identity transform, is already at one of the two scales the transitions set, 0.75 and 1 |
| Hoshi.DrawingLaysOut | TextFieldEffects/TextFieldEffects/HoshiTextField.swift:101-108 | after drawing, the label is docked at one of its two points and both borders sit on the frame's bottom edge |
| Hoshi.ApplyPreservesLaidOut | TextFieldEffects/TextFieldEffects/HoshiTextField.swift:21-71 | once laid out, every event, including a bounds change, keeps the label docked and the borders on the current bottom edge |
| Hoshi.RunPreservesLaidOut | TextFieldEffects/TextFieldEffects/HoshiTextField.swift:21-71 | the layout invariant holds after every sequence of events |
| Hoshi.BorderStaysHiddenWithoutError | TextFieldEffects/TextFieldEffects/HoshiTextField.swift:83-163 | only showError reveals the active border: a sequence of events without one keeps a hidden border hidden |
| Hoshi.TransitionsKeepFilledLabel | TextFieldEffects/TextFieldEffects/HoshiTextField.swift:115-152 | with text in the field neither transition touches the label |
| Hoshi.EntryDisplayRoundTrip | TextFieldEffects/TextFieldEffects/HoshiTextField.swift:115-152 | with an empty field and a font, entry then display brings the label back to the inactive point at full size |
| HexColor.IsWhitespaceOrNewline | TextFieldEffects/TextFieldsDemo/UIColor+Extension.swift:15 | no character of the whitespacesAndNewlines set is a hex digit or '#', so trimming never removes either |
| HexColor.Trim | TextFieldEffects/TextFieldsDemo/UIColor+Extension.swift:15 | trimming never lengthens a string, and leaves nothing exactly when the string is all whitespace and newlines |
| HexColor.Uppercased | TextFieldEffects/TextFieldsDemo/UIColor+Extension.swift:15 | upper-casing keeps the length, maps each character by itself and leaves no lower-case letter |
| HexColor.Normalized | TextFieldEffects/TextFieldsDemo/UIColor+Extension.swift:15 | the trimmed, upper-cased string is no longer than the input, holds no lower-case letter, and is empty exactly when the input is all whitespace |
| HexColor.StripHash | TextFieldEffects/TextFieldsDemo/UIColor+Extension.swift:17-19 | a string starting with '#' loses exactly that one character, and any other string is kept whole |
| HexColor.Stripped | TextFieldEffects/TextFieldsDemo/UIColor+Extension.swift:15-19 | what the length check sees is no longer than the input and holds no lower-case letter |
| HexColor.SkipWhitespace | TextFieldEffects/TextFieldsDemo/UIColor+Extension.swift:15 | skipping whitespace passes over whitespace only and stops at the first other character or the end |
| HexColor.DropTrailingWhitespace | TextFieldEffects/TextFieldsDemo/UIColor+Extension.swift:15 | dropping trailing whitespace removes whitespace only and stops after the last other character |
| HexColor.TrimmedOffIsWhitespace | TextFieldEffects/TextFieldsDemo/UIColor+Extension.swift:15 | what trimming removes at either end is whitespace |
| HexColor.TrimIsTrimmed | TextFieldEffects/TextFieldsDemo/UIColor+Extension.swift:15 | what trimming keeps neither starts nor ends with whitespace |
| HexColor.TrimSplit | TextFieldEffects/TextFieldsDemo/UIColor+Extension.swift:15 | a string is its leading whitespace, its trimmed part and its trailing whitespace, and the trimmed part neither starts nor ends with whitespace |
| HexColor.TrimUnique | TextFieldEffects/TextFieldsDemo/UIColor+Extension.swift:15 | trimming any whitespace off a trimmed string gives that string back |
| HexColor.TrimSurrounded | TextFieldEffects/TextFieldsDemo/UIColor+Extension.swift:15 | added whitespace around a string does not change its trimmed form |
| HexColor.UppercasedTrim | TextFieldEffects/TextFieldsDemo/UIColor+Extension.swift:15 | upper-casing and trimming commute |
| HexColor.HexValue | TextFieldEffects/TextFieldsDemo/UIColor+Extension.swift:27 | the value of n hex digits is below 16^n |
| HexColor.ScanStart | TextFieldEffects/TextFieldsDemo/UIColor+Extension.swift:27 | the scanner's digits start after whitespace only, or after whitespace followed by "0X" or "0x"; all the leading whitespace is skipped, and a "0X" or "0x" right after it is always consumed |
| HexColor.SkipHexDigits | TextFieldEffects/TextFieldsDemo/UIColor+Extension.swift:27 | the scanner's digit run holds only hex digits and stops at the first non-digit |
| HexColor.ScanHexInt32 | TextFieldEffects/TextFieldsDemo/UIColor+Extension.swift:26-27 | the scanned value of a string of n characters is below 16^n, so six characters give at most 24 bits |
| HexColor.ScanPlainDigits | TextFieldEffects/TextFieldsDemo/UIColor+Extension.swift:26-27 | the scanner reads a run of digits without a 0x prefix as its hexadecimal value |
| HexColor.ScanAfterPrefix | TextFieldEffects/TextFieldsDemo/UIColor+Extension.swift:26-27 | for any leading whitespace, an optional "0X" or "0x", a non-empty run of hex digits and a rest that is empty or starts with neither a hex digit nor 'X'/'x', the scanner reads exactly the value of that run |
| HexColor.Channels | TextFieldEffects/TextFieldsDemo/UIColor+Extension.swift:30-32 | the three masked and shifted bytes of a 24-bit value recombine to that value |
| HexColor.ChannelsOfBytes | TextFieldEffects/TextFieldsDemo/UIColor+Extension.swift:30-32 | the bytes extracted from red·2^16 + green·2^8 + blue are red, green and blue |
| HexColor.ParseOfSixCharacters | TextFieldEffects/TextFieldsDemo/UIColor+Extension.swift:21-32 | a string that leaves six characters after stripping parses to the channels of their scanned value, which is below 2^24 |
| HexColor.Parse | TextFieldEffects/TextFieldsDemo/UIColor+Extension.swift:15-32 | the result is the grey exactly when the trimmed, upper-cased, once-unhashed string is not six characters long; otherwise the three bytes recombine to the scanned value |
| HexColor.ToComponents | TextFieldEffects/TextFieldsDemo/UIColor+Extension.swift:22-33 | alpha is 1, each component lies in 0..1, the grey is 0.5 in each channel, and a parsed channel is its byte over 255 |
| HexColor.ColorFromHex | TextFieldEffects/TextFieldsDemo/UIColor+Extension.swift:14-35 | alpha is always 1, and a string of the wrong length gives (0.5, 0.5, 0.5, 1) |
| HexColor.WhitespaceNeverMatters | TextFieldEffects/TextFieldsDemo/UIColor+Extension.swift:15 | whitespace and newlines before and after the string never change the colour |
| HexColor.CaseNeverMatters | TextFieldEffects/TextFieldsDemo/UIColor+Extension.swift:15 | two strings that agree once upper-cased give the same colour |
| HexColor.HexChar | TextFieldEffects/TextFieldsDemo/UIColor+Extension.swift:27 | a formatted digit is a hex digit whose value is the digit, and is not whitespace, '#' or 'x' |
| HexColor.UppercasedFormat | TextFieldEffects/TextFieldsDemo/UIColor+Extension.swift:15 | upper-casing a formatted colour gives its upper-case spelling |
| HexColor.StrippedFormat | TextFieldEffects/TextFieldsDemo/UIColor+Extension.swift:15-21 | a formatted colour, with or without '#' and in either case, leaves its six upper-case digits after trimming, upper-casing and stripping |
| HexColor.DigitsValue | TextFieldEffects/TextFieldsDemo/UIColor+Extension.swift:27 | six formatted digits have the value red·2^16 + green·2^8 + blue |
| HexColor.ScanDigits | TextFieldEffects/TextFieldsDemo/UIColor+Extension.swift:26-32 | the scanner reads six formatted digits as red·2^16 + green·2^8 + blue, whose masked and shifted channels are red, green and blue |
| HexColor.FormatParseRoundTrip | TextFieldEffects/TextFieldsDemo/UIColor+Extension.swift:15-32 | any three bytes written as six hex digits, with or without '#', in either case, parse back to the same bytes |
| HexColor.ParsesRedWithHash | TextFieldEffects/TextFieldsDemo/UIColor+Extension.swift:15-32 | "#FC3B60" gives (252, 59, 96) |
| HexColor.ParsesLowercaseWithoutHash | TextFieldEffects/TextFieldsDemo/UIColor+Extension.swift:15-32 | "fc3b60" gives (252, 59, 96) |
| HexColor.ParsesDarkBlueWithoutHash | TextFieldEffects/TextFieldsDemo/UIColor+Extension.swift:15-32 | "1B2432" gives (27, 36, 50) |
| HexColor.DoubleHashFallsBack | TextFieldEffects/TextFieldsDemo/UIColor+Extension.swift:17-24 | only one '#' is removed, so "##" and six digits falls back to the grey |
| HexColor.ShortStringFallsBack | TextFieldEffects/TextFieldsDemo/UIColor+Extension.swift:21-24 | "ABC" falls back to the grey |
| HexColor.NoDigitsGiveBlack | TextFieldEffects/TextFieldsDemo/UIColor+Extension.swift:26-32 | six characters that do not start with a hex digit or whitespace scan as 0, so the colour is black, not the grey |
| Demo.DidBeginEditing | TextFieldEffects/TextFieldsDemo/ExampleTableViewController.swift:92-95 | beginning to edit hides the error border, recolours the label and restores any saved text |
| Demo.DidEndEditing | TextFieldEffects/TextFieldsDemo/ExampleTableViewController.swift:97-101 | ending an edit with text shows "Bad Name!" and the error border and saves the label's text; with no text nothing changes |
| Demo.TextFieldDidBeginEditing | TextFieldEffects/TextFieldsDemo/ExampleTableViewController.swift:92-95 | the delegate calls hideError on the field |
| Demo.TextFieldDidEndEditing | TextFieldEffects/TextFieldsDemo/ExampleTableViewController.swift:97-101 | the delegate calls showError("Bad Name!") exactly when the field holds text |
| Demo.NextSessionClearsError | TextFieldEffects/TextFieldsDemo/ExampleTableViewController.swift:92-101 | from a label with text, whatever was typed, beginning the next edit hides the error and shows the label text of the previous edit again |
| Demo.EmptyFieldShowsNoError | TextFieldEffects/TextFieldsDemo/ExampleTableViewController.swift:97-101 | a field left empty keeps its label and a hidden error border |
| Demo.CellField | TextFieldEffects/TextFieldsDemo/ExampleTableViewController.swift:63-70 | a table cell's field has its name as both label text and placeholder, nothing saved and no text |
| Demo.MakeCellField | TextFieldEffects/TextFieldsDemo/ExampleTableViewController.swift:63-70 | the cell's field is a new control set up as `CellField` says |
| Demo.FirstnameScenario | TextFieldEffects/TextFieldsDemo/ExampleTableViewController.swift:63-101 | a "Firstname" cell left holding a name shows "Bad Name!" in the active border colour with the error border, and editing it again brings "Firstname" back |

## Left out

- Animation timing: durations, spring damping and velocity, `.beginFromCurrentState` and the `animationCompletionHandler` callbacks are asynchronous toolkit behaviour. Each animation block is its final assignments, made at once.
- Label sizing: `sizeToFit`, the label frame computed from `placeholderInsets` in `drawViewsForRect`, and the label's size. Only the label's origin, scale, font, text and colour are modelled.
- Layer and view plumbing: `addSublayer`, `addSubview`, the layers' `cgColor` conversion, `@IBInspectable` and `@IBDesignable`.
- Font lookup: `UIFont(name: "Roboto-Regular", size: 12)` is a call into the toolkit. Its result is the parameter of `DrawViewsForRect`, absent when the font is not installed. `UIFont(name:size:)` rebuilt from the field's own font is taken to give that font back.
- `placeholderFontSize` is stored and triggers the placeholder update, as in the source, but nothing reads it.
- Hoshi.HoshiTextField.SetBounds: the bounds change is modelled as the frame taking the new size, with its origin kept. How UIKit recentres the frame around the view's centre is not modelled. Rectangle sizes are taken as finite; CGRect's null and infinite rectangles are not modelled.
- Geometry uses exact `real`s, not `CGFloat`. CGRect's `width` and `height` are the absolute values of the size. Bounds are taken with non-negative sizes, so the editing and text rectangles keep the size of the bounds; how `offsetBy` standardises a rectangle with a negative size is not modelled.
- The base class TextFieldEffects, which calls the two animate methods on focus changes and `drawViewsForRect` on drawing, is not part of this model. Text, focus and font changes reach the model as events. The label it creates is taken to start as a plain UILabel: no text, colour or font, at the origin, with the identity transform.
- `text!` force-unwraps an optional: the model's text is always a string, so the crash on a nil text is not modelled.
- Colour components are exact reals, not `CGFloat`. `ToComponents` gives the byte over 255, and the grey is a constructor of its own.
- HexColor.ScanHexInt32: `Scanner.scanHexInt32` is a Foundation call. The model assumes it skips leading whitespace, accepts an optional `0X` or `0x` and reads the longest run of hex digits, leaving 0 when there is none. Its 32-bit overflow is not modelled, since six characters hold at most 24 bits.
- Upper-casing is ASCII only. Trimming uses the characters of `whitespacesAndNewlines` listed in `IsWhitespaceOrNewline`, and character count is the length of the `char` sequence, not a count of grapheme clusters.
- The table view of the demo app: the data source, the layout constraints and the swipe-to-delete action are UI plumbing. Only the delegate policy and the cell's text field set-up are modelled.
- The "label is active exactly when the field is focused or holds text" reading of the control is not what the code does. The placeholder update moves the label only when there is a font, the field is focused and the field is empty. With text, the entry transition does nothing. The text-display transition moves the label only when the field has a font. The model follows the code.
