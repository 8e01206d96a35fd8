# textmastree in Dafny

textmastree turns a greeting into a "text Christmas tree". The greeting's characters are dealt
into rows of growing width under a topper glyph. The sender marks some characters as
highlighted, and the recipient lights them up by holding a button. The whole tree is carried in
a share link.

This project models the parts of the program that decide what is drawn and how the state
changes:

- `LayoutEngine` (layout.dfy) models `buildTreeLayout`. It strips whitespace from the content
  and repeats the result until it holds at least 55 code units. It then deals the stream into
  rows of 1, 2, 3, ... glyphs and stops after 50 rows. Each glyph carries its cursor position in
  the padded stream and whether that position is in the highlight list.
  - `BuildTreeLayout` and `DealRows` are the source's loops.
  - They are proved equal to `Layout`, a closed form. Row i holds the positions from
    `Slots(i) = 1 + ... + i` on, and `RowCount` rows hold `min(|stream|, 1275)` glyphs.
  - Lemmas then state what the layout promises: emptiness, row sizes, order and contents of
    the glyphs, and independence from whitespace, topper and style.
- `TreeView` (tree_view.dfy) models the per-glyph decisions of the tree component:
  - the topper fallback;
  - the decoration, highlight, active and hidden flags;
  - the click guard.
- `EditorModel` (editor.dfy) models the editor. The `setData` updaters are pure functions:
  text truncation, topper selection, highlight toggle and share-link construction. The component
  itself is the class `Editor`. Its fields are the component's state, and its methods are the
  event handlers and the timer callbacks.
- `ReceiverModel` (receiver.dfy) models the receiver's two display flags. The class `Receiver`
  has the handlers. `Step` and `Run` describe any sequence of press and release events.
- `TreeTypes` (types.dfy) holds the shared records `TreeData` and `TreeChar`.

Strings are sequences of UTF-16 code units (`CodeUnit`), because JavaScript measures, slices
and indexes strings in those. Non-ASCII literals are written as code-unit lists. The JavaScript
class `\s` is given concretely as the ECMAScript WhiteSpace and LineTerminator code units.

Where the program's own description and its code disagree, the model follows the code:

- The code inserts no decoration glyphs. Every glyph has a non-negative index
  (`TreeView.LayoutHasNoDecorations`). The index `-1` is still handled by the tree component.
- Highlight indices are cursor positions in the padded stream, not positions in the stripped
  content. A repeated character is a different index (`LayoutEngine.HelloExample`).
- The topper is described as one grapheme cluster. The code keeps the first code point, so an
  emoji built from several code points is cut to its first (`EditorModel.FirstCodePoint`).
- "Back to edit" is described as discarding the generated link. The code only clears
  `isGenerated` and keeps `generatedUrl` (`EditorModel.Editor.HandleBackToEdit`).

Specification functions without their own contract are described by the lemmas listed below:

- `LayoutEngine`: `IsWhitespace` (the class `\s` of utils/helpers.ts:41), `Glyph` (the record
  pushed at utils/helpers.ts:62-66), `Stream`, `Slots`, `Placed`, `Span`, `RowAt`, `RowsUpTo`,
  `LayoutOf`, `Layout` and `Flatten`.
- `EditorModel`: `IsHighSurrogate`, `IsLowSurrogate`, `NoDuplicates` and `Editor.Valid`. The
  class invariant `Valid` bounds the content by 500 code units and the topper by two; the
  constructor establishes it and every handler keeps it.
- `ReceiverModel`: `HintVisible`.

## Model

| member | source | states |
|---|---|---|
| LayoutEngine.Strip | utils/helpers.ts:41 | no whitespace code unit remains, and the result is no longer than the content |
| LayoutEngine.StripConcat | utils/helpers.ts:41 | stripping works piecewise: strip(a + b) = strip(a) + strip(b), so kept code units keep their order |
| LayoutEngine.StripNoWhitespace | utils/helpers.ts:41 | content without whitespace is left unchanged |
| LayoutEngine.StripIdempotent | utils/helpers.ts:41 | stripping twice is stripping once |
| LayoutEngine.StripEmptyIff | utils/helpers.ts:41 | stripping leaves nothing exactly when every code unit is whitespace; with StripConcat and StripNoWhitespace this fixes Strip as removing exactly the whitespace |
| LayoutEngine.Repeat | utils/helpers.ts:48-50 | k copies of s have k·\|s\| code units |
| LayoutEngine.RepeatAt | utils/helpers.ts:48-50 | position q·\|s\| + j of k copies holds s[j] |
| LayoutEngine.Copies | utils/helpers.ts:46-50 | the copy count k has k ≥ 1, k·L ≥ 55 and (k−1)·L < 55 |
| LayoutEngine.CopiesUnique | utils/helpers.ts:47-50 | only one k satisfies those bounds, so the loop's count is ceil(55 / L) |
| LayoutEngine.StreamShape | utils/helpers.ts:41-51 | empty content gives an empty stream; L ≥ 55 keeps the stripped content; L < 55 gives k ≥ 2 copies with 55 ≤ length = k·L < 55 + L |
| LayoutEngine.StreamAt | utils/helpers.ts:44-51 | every stream position repeats the stripped content at the same offset within its copy |
| LayoutEngine.SlotsMonotone | utils/helpers.ts:57-76 | rows of growing width: more rows hold strictly more slots |
| LayoutEngine.SlotsClosedForm | utils/helpers.ts:57-76 | r rows hold r(r+1)/2 slots |
| LayoutEngine.CapacityIsSlots | utils/helpers.ts:76 | the 50-row cap is 1275 slots |
| LayoutEngine.RowCountExists | utils/helpers.ts:57-76 | for n ≤ 1275 glyphs some row count of at most 50 has room for all n and starts its last row before n |
| LayoutEngine.RowCount | utils/helpers.ts:57-76 | the number of rows for n glyphs is at most 50, has room for all n, and its last row starts before n |
| LayoutEngine.RowCountUnique | utils/helpers.ts:57-76 | any row count with those properties is RowCount(n) |
| LayoutEngine.RowStartsBefore | utils/helpers.ts:57-60 | every row of the layout starts at a stream position that exists |
| LayoutEngine.SpanNext | utils/helpers.ts:59-67 | pushing the glyph at the cursor extends a row by that one glyph |
| LayoutEngine.SpanJoin | utils/helpers.ts:54-67 | consecutive runs of glyphs join into one run |
| LayoutEngine.SpanExtend | utils/helpers.ts:54-67 | the first m glyphs are the first `from` glyphs, then the next m − from |
| LayoutEngine.RowsUpToNext | utils/helpers.ts:72 | pushing row r onto r rows gives the first r + 1 rows |
| LayoutEngine.RowDealt | utils/helpers.ts:58-71 | one pass of the inner loop deals exactly row r and moves the cursor to the next row's start or the end |
| LayoutEngine.BuildTreeLayout | utils/helpers.ts:40-80 | the padding and dealing loops return exactly Layout(data), the closed-form rows of the padded stream |
| LayoutEngine.DealRows | utils/helpers.ts:53-79 | the row loops return exactly the closed-form rows of the stream |
| LayoutEngine.DealtRowCount | utils/helpers.ts:57-76 | the outer loop stops after RowCount rows, at the 50th row or once the stream runs out |
| LayoutEngine.LayoutEmptyIff | utils/helpers.ts:41-42 | the layout is empty exactly when every code unit of the content is whitespace (the empty content included) |
| LayoutEngine.RowSizes | utils/helpers.ts:57-76 | at most 50 rows; row i holds between 1 and i+1 glyphs; every row but the last holds exactly i+1 |
| LayoutEngine.LayoutRowSizes | utils/helpers.ts:57-76 | the same row sizes for the layout of a record |
| LayoutEngine.FullRowSpan | utils/helpers.ts:59-71 | a row before the last holds exactly i+1 consecutive positions |
| LayoutEngine.LastRowSpan | utils/helpers.ts:57-76 | the last row starts before min(\|stream\|, 1275) and runs exactly up to it, so the stream beyond slot 1275 is dropped |
| LayoutEngine.FlattenRowsNext | utils/helpers.ts:72 | flattening r rows appends the last row to the flattened first r − 1 |
| LayoutEngine.FlattenFullRows | utils/helpers.ts:54-73 | the full rows flatten to positions 0 .. Slots(r) − 1 in order |
| LayoutEngine.FlattenAllRows | utils/helpers.ts:54-76 | all rows flatten to positions 0 .. n − 1, with n = min(\|stream\|, 1275) |
| LayoutEngine.FlattenLayoutOf | utils/helpers.ts:54-76 | the rows of any stream flatten to its first min(\|stream\|, 1275) glyphs in order |
| LayoutEngine.LayoutFlatten | utils/helpers.ts:54-67 | flattening the layout gives indices 0, 1, ..., n−1 in order, n = min(\|stream\|, 1275), each with stream[index] |
| LayoutEngine.RowGlyphs | utils/helpers.ts:59-66 | glyph j of row i has index Slots(i)+j inside the stream, the stream's code unit there, and isHighlight ⇔ index ∈ h |
| LayoutEngine.LayoutGlyphs | utils/helpers.ts:61-65 | the same for the layout of a record: index ≥ 0, ch = stream[index], isHighlight exactly when index ∈ data.h |
| LayoutEngine.LayoutIgnoresWhitespace | utils/helpers.ts:41 | records with the same stripped content and highlights have identical layouts |
| LayoutEngine.LayoutIgnoresTopperAndStyle | utils/helpers.ts:40-79 | topper and style index do not affect the rows |
| LayoutEngine.SpacedExample | utils/helpers.ts:41 | "A B\nC" and "ABC" lay out identically |
| LayoutEngine.HelloStream | utils/helpers.ts:44-51 | "HELLO" pads to 55 code units, with positions 6 and 8 repeating positions 1 and 3 |
| LayoutEngine.HelloExample | utils/helpers.ts:61-65 | the tree of "HELLO" with h = [1, 3] holds 55 glyphs numbered 0 to 54 in reading order; exactly positions 1 and 3 are highlighted, not their repeats at 6 and 8 |
| TreeView.TopperShown | components/ChristmasTree.tsx:30 | the topper shown is data.t when non-empty, otherwise the star |
| TreeView.Classify | components/ChristmasTree.tsx:41-44 | decoration iff index = −1; highlight iff not a decoration and index ∈ h; active exactly when revealing and highlighted, hidden exactly when revealing and not highlighted, so the reveal lights every highlight and dims everything else |
| TreeView.ClassifyIgnoresStoredFlag | components/ChristmasTree.tsx:42 | the glyph's stored isHighlight never affects its drawn flags |
| TreeView.ClickTarget | components/ChristmasTree.tsx:52 | a click reaches onCharClick, with the glyph's index, iff highlight mode is on, a handler exists and the glyph is not a decoration |
| TreeView.ViewRows | components/ChristmasTree.tsx:35-44 | every drawn glyph gets the flags Classify gives it, row by row |
| TreeView.LayoutHasNoDecorations | components/ChristmasTree.tsx:41-52 | no laid-out glyph is a decoration; its drawn highlight equals its layout flag; in highlight mode every glyph is clickable |
| TreeView.MemoisedRowsShowCurrentHighlights | components/ChristmasTree.tsx:21-42 | rows memoised on c and t alone have the current shape and indices, and draw the highlights of the current h |
| EditorModel.Truncate | components/Editor.tsx:31 | the result is the first min(\|s\|, n) code units |
| EditorModel.WithText | components/Editor.tsx:30-33 | the content becomes the first 500 code units of the input (all of it when shorter); h is cleared; t and s are unchanged |
| EditorModel.FirstCodePoint | components/Editor.tsx:38 | an input prefix that is empty iff the input is; two code units exactly when it starts with a surrogate pair, otherwise one |
| EditorModel.FirstCodePointIdempotent | components/Editor.tsx:38 | taking the first code point again changes nothing |
| EditorModel.WithTopper | components/Editor.tsx:35-40 | only t changes, to the input's first code point |
| EditorModel.Without | components/Editor.tsx:48 | x no longer occurs; every other value is present exactly when it was |
| EditorModel.WithoutCounts | components/Editor.tsx:48 | filtering keeps the number of occurrences of every other value |
| EditorModel.WithoutConcat | components/Editor.tsx:48 | filtering distributes over concatenation, so survivors keep their relative order |
| EditorModel.WithoutAbsent | components/Editor.tsx:48 | filtering an absent value returns the list unchanged |
| EditorModel.Toggled | components/Editor.tsx:47-49 | x is present afterwards iff it was absent before; other values keep membership and multiplicity |
| EditorModel.ToggleAbsentAppends | components/Editor.tsx:49 | an absent index is appended after all existing ones |
| EditorModel.ToggleTwiceRestores | components/Editor.tsx:47-49 | toggling an absent index twice restores h exactly |
| EditorModel.TogglePreservesNoDuplicates | components/Editor.tsx:47-49 | a duplicate-free h stays duplicate-free |
| EditorModel.ToggleTwiceMovesToEnd | components/Editor.tsx:47-49 | toggling a present index twice moves it to the end, with the others in order |
| EditorModel.WithToggled | components/Editor.tsx:46-51 | only h changes, by the toggle; c, t and s are unchanged |
| EditorModel.BeforeFirst | components/Editor.tsx:60 | a prefix without the separator that ends at the first separator, or at the end |
| EditorModel.BeforeFirstConcat | components/Editor.tsx:60 | cutting a + b where a has no separator keeps a whole |
| EditorModel.BaseUrl | components/Editor.tsx:60 | a prefix of the address with neither '#' nor '?' that ends at the first '#' or '?' (or at the end), so all of it when it has neither |
| EditorModel.ShareUrl | components/Editor.tsx:61 | the link is the base, then "#tree=", then the token |
| EditorModel.ShareUrlFragment | components/Editor.tsx:59-61 | cutting the link at its first '#' gives back the base, and what follows is "tree=" and the token |
| EditorModel.RegenerateSameBase | components/Editor.tsx:60-61 | generating from a page whose address is already a generated link yields the same base |
| EditorModel.Editor.constructor | components/Editor.tsx:14-26 | the initial state: star topper, default greeting, no highlights, style 1, every flag off, idle, no link |
| EditorModel.Editor.HandleTextChange | components/Editor.tsx:30-33 | data becomes WithText(data, value); the 500-unit bound is kept |
| EditorModel.Editor.HandleTopperChange | components/Editor.tsx:35-40 | data becomes WithTopper(data, value) |
| EditorModel.Editor.ToggleHighlight | components/Editor.tsx:42-52 | no change while the preview is lit or the tree is generated; otherwise data becomes WithToggled(data, index) |
| EditorModel.Editor.ToggleHighlightMode | components/Editor.tsx:229 | highlight mode flips |
| EditorModel.Editor.HandleGenerate | components/Editor.tsx:54-62 | building starts, the phase is scanning, the link is ShareUrl(href, encode(data)); the tree shows the building effect and is lit only if the preview is held |
| EditorModel.Editor.ScanTimerFires | components/Editor.tsx:65-66 | the phase becomes revealing: the tree is lit and the building effect ends |
| EditorModel.Editor.RevealTimerFires | components/Editor.tsx:67-70 | building ends, the phase is idle and the tree is generated; no building effect, lit only if the preview is held |
| EditorModel.Editor.HandleCopy | components/Editor.tsx:77-80 | the text handed to the clipboard is the generated link; a successful copy sets the copy status, a failed one changes nothing |
| EditorModel.Editor.CopyTimerFires | components/Editor.tsx:81 | the copy status is cleared |
| EditorModel.Editor.HandleBackToEdit | components/Editor.tsx:85-87 | isGenerated becomes false, and nothing else changes |
| EditorModel.Editor.TreePointerDown | components/Editor.tsx:108 | lights the preview only when the tree is generated; otherwise nothing changes |
| EditorModel.Editor.TreePointerRelease | components/Editor.tsx:109-110 | darkens the preview only when the tree is generated; otherwise nothing changes |
| EditorModel.Editor.PreviewPointerDown | components/Editor.tsx:149 | lights the preview unconditionally |
| EditorModel.Editor.PreviewPointerRelease | components/Editor.tsx:150-151 | darkens the preview unconditionally |
| EditorModel.Editor.CharCount | components/Editor.tsx:256 | the character counter never shows more than 500, and shows 0 exactly when the content is empty |
| EditorModel.Editor.TreeHighlightMode | components/Editor.tsx:114 | the tree gets highlight mode only when it is on and the tree is not generated |
| EditorModel.Editor.TreeIsRevealing | components/Editor.tsx:116 | the tree is lit during the reveal phase or while the preview is held, and otherwise dark; the build handlers state the display through it |
| EditorModel.Editor.TreeIsBuilding | components/Editor.tsx:117 | the tree shows the building effect exactly in the scanning phase; the build handlers state the display through it |
| EditorModel.GeneratedTreeIgnoresClicks | components/Editor.tsx:114-115 | once generated, no click on the editor's tree reaches toggleHighlight |
| EditorModel.BuildSequence | components/Editor.tsx:54-74 | generate then both timers: the tree is generated and idle, drawn without highlight mode or building effect and lit exactly when the preview was held; the record, highlight mode, preview and copy status are unchanged, and the link encodes the record |
| ReceiverModel.Step | components/Receiver.tsx:17-24 | a press sets both flags; a release clears isRevealing and keeps hasInteracted |
| ReceiverModel.Run | components/Receiver.tsx:15-24 | after any events the tree is lit exactly when the last event was a press |
| ReceiverModel.InteractionIsSticky | components/Receiver.tsx:15-24 | hasInteracted never returns to false, becomes true at any press, and changes only through a press |
| ReceiverModel.HintUntilFirstPress | components/Receiver.tsx:32 | from the initial state the hint is shown exactly when no press has happened yet |
| ReceiverModel.Receiver.constructor | components/Receiver.tsx:13-15 | the receiver keeps the record it is given, with both flags off |
| ReceiverModel.Receiver.HandleStart | components/Receiver.tsx:17-20 | both flags become true, as Step prescribes for a press |
| ReceiverModel.Receiver.HandleEnd | components/Receiver.tsx:22-24 | isRevealing becomes false and hasInteracted is kept, as Step prescribes for a release |
| ReceiverModel.Receiver.ShowsHint | components/Receiver.tsx:32 | the hint is shown iff there has been no interaction and the tree is not lit |
| ReceiverModel.ReceiverTreeIgnoresClicks | components/Receiver.tsx:29 | the receiver's tree has no highlight mode and no handler, so no click reaches one |

## Left out

- `encodeTreeData` and `decodeTreeData` (utils/helpers.ts:8-35) wrap lz-string, JSON and URI decoding, whose code is not part of this model. The encoder is a parameter of `Editor.HandleGenerate`, and no round trip is claimed.
- `copyToClipboard` (utils/helpers.ts:85-104) is browser I/O. Its outcome is the `success` parameter of `Editor.HandleCopy`.
- App.tsx routing reads the address's hash and listens for `hashchange`. It is plumbing around decoding. `ShareUrlFragment` states the link shape that routing relies on.
- The `setTimeout` delays (1000, 1500 and 2000 ms) and `window.scrollTo` are not modelled. The timer callbacks are separate methods (`ScanTimerFires`, `RevealTimerFires`, `CopyTimerFires`), so any interleaving of events and timers can be expressed, but the durations cannot.
- The window address is a parameter of `Editor.HandleGenerate`.
- Animation delays, class names, CSS and components/PixelButton.tsx are styling only.
- The description of decoration glyphs and a random palette has no counterpart in the code's `buildTreeLayout`, so it is not modelled. The index −1 test in the tree component is modelled.
- `h` is a sequence of integers. Non-integer JSON numbers are not modelled, and neither is the unvalidated `JSON.parse` output of decoding.
- Conditions that only hide controls are not preconditions. These are the edit panel shown only before generating, and the textarea disabled in highlight mode. The handlers are modelled as written, and `ToggleHighlight` carries its own guard.
- The receiver's reset button calls an `onReset` callback owned by App.tsx, which is not part of this model.
- React's batching of state updates and re-rendering are not modelled. Each handler is one atomic step on the state.
- The mouse-pointer events up and leave run the same code. Each pair is one method: `TreePointerRelease`, `PreviewPointerRelease`, and `HandleEnd` with `Release`.
- `LayoutEngine.RowCount` is a ghost specification function. The rows are computed by `DealRows`, which is proved to produce exactly that many.
