# JKQTPlotter user-interaction example: formatters, scribble counter, mouse-action selector

This project models the self-contained logic of the window in
`examples/test_user_interaction/test_user_interaction.cpp`. The rest of that
file is Qt widget construction and signal wiring.

- **Keyboard-modifier formatter** (`KeyboradMod2String`, written here as
  `KeyboardModifiersToString`). It tests Shift, Control, Alt, Meta and Keypad
  in that order. For each one that is held it appends `"SHIFT "`, `"CTRL "`,
  `"ALT "`, `"META "` or `"KEYPAD "` to a local string.
- **Mouse-button formatter** (`MouseButton2String`, written here as
  `MouseButtonToString`). It works the same way for Left, Right, Middle, Back
  and Forward, appending `"LEFT "`, `"RIGHT "`, `"MID "`, `"BACK "` and
  `"FORWARD "`.
- **Scribble-point counter** (`userScribbleClick`). A persistent counter is
  reset to 0 by a point that starts a gesture. Every other point adds one to it.
  The point's `last` flag is only reported.
- **Mouse-action selector.** The combo box is filled with nine entries in a
  fixed order. `setLeftMouseAction` hands the selected index to the plot unchanged.

Modules:

- `FlagText` (`flag_text.dfy`) is the scheme both formatters share. A table of
  flags (bit, word) is tested in order:
  - `Text` is the string built one token at a time, as the source builds it.
  - `Spaced(SetWords(..))` is an independent reference: keep the words of the
    set flags, then join them, each followed by a space.
  - `Words` and `Parse` read a text back into its words and its mask.
- `Qt` (`qt.dfy`) holds the bit positions of the Qt flags that the formatters
  test.
- `UserInteraction` (`test_user_interaction.dfy`) holds the two formatter
  methods and their tables, the counter's specification functions, the
  selector's modes, and the class `TestUserInteraction`. That class keeps
  the selector's entries, its current index, the mode handed to the plot and
  the scribble counter.

A Qt flags word (`Qt::KeyboardModifiers`, `Qt::MouseButton`) is modelled as
the set of positions of its one bits (`FlagText.Mask`). Each flag that the
formatters test is a single bit, so the source's test `(m & Flag) != 0` holds
exactly when that bit's position is in the set. The positions are Qt's own
(Shift 0x02000000 is bit 25, ..., Left 0x1 is bit 0, ..., Forward 0x10 is
bit 4). Qt's `qnamespace.h` is not part of this model.

A first point, three further points and a final point with `last` set
report 0, 1, 2, 3, 4: the final point also adds one, since `last` plays no
part in the count (`GestureCount`, `LastFlagIgnored`).

## Model

| member | source | states |
|---|---|---|
| `UserInteraction.KeyboardModifiersToString` | examples/test_user_interaction/test_user_interaction.cpp:182-190 | the string built by the five tests and appends equals the modifier text defined by the flag table (`Text(ModifierFlags, m)`) |
| `UserInteraction.MouseButtonToString` | examples/test_user_interaction/test_user_interaction.cpp:192-200 | the string built by the five tests and appends equals the button text defined by the flag table |
| `UserInteraction.ModifierTextInOrder` | examples/test_user_interaction/test_user_interaction.cpp:183-189 | the modifier text is "SHIFT ", "CTRL ", "ALT ", "META ", "KEYPAD " concatenated in this order, each included iff its modifier bit is set |
| `UserInteraction.ButtonTextInOrder` | examples/test_user_interaction/test_user_interaction.cpp:193-199 | the button text is "LEFT ", "RIGHT ", "MID ", "BACK ", "FORWARD " concatenated in this order, each included iff its button bit is set |
| `UserInteraction.ModifierTextFacts` | examples/test_user_interaction/test_user_interaction.cpp:182-190 | the modifier text is empty iff none of the five modifiers is set; each modifier's word occurs in it iff the modifier is set, and at most once; it does not start with a space, ends with one space and never has two in a row; parsing it gives back the set modifiers |
| `UserInteraction.ButtonTextFacts` | examples/test_user_interaction/test_user_interaction.cpp:192-200 | the same for the button text: empty iff no button bit is set, each button's word present iff set and at most once, single trailing space, parses back to the set buttons |
| `UserInteraction.ModifierTextLength` | examples/test_user_interaction/test_user_interaction.cpp:184-188 | the modifier text's length is the sum of the lengths of the included tokens (6, 5, 4, 5, 7) |
| `UserInteraction.ButtonTextLength` | examples/test_user_interaction/test_user_interaction.cpp:194-198 | the button text's length is the sum of the lengths of the included tokens (5, 6, 4, 5, 8) |
| `UserInteraction.ModifierTextIgnoresOtherBits` | examples/test_user_interaction/test_user_interaction.cpp:184-188 | two masks that agree on the five modifier bits give the same text; no other bit has an effect |
| `UserInteraction.ButtonTextIgnoresOtherBits` | examples/test_user_interaction/test_user_interaction.cpp:194-198 | two masks that agree on the five button bits give the same text |
| `UserInteraction.ModifierTextExamples` | examples/test_user_interaction/test_user_interaction.cpp:182-190 | no modifiers give "", Shift+Control give "SHIFT CTRL ", all five give "SHIFT CTRL ALT META KEYPAD " |
| `UserInteraction.ButtonTextExamples` | examples/test_user_interaction/test_user_interaction.cpp:192-200 | no button gives "", Left gives "LEFT ", Left+Right give "LEFT RIGHT " |
| `UserInteraction.ModifierTableFacts` | examples/test_user_interaction/test_user_interaction.cpp:184-188 | the modifier table's words are non-empty, space-free and distinct, and its bits are exactly the five tested modifiers |
| `UserInteraction.ButtonTableFacts` | examples/test_user_interaction/test_user_interaction.cpp:194-198 | the button table's words are non-empty, space-free and distinct, and its bits are exactly the five tested buttons |
| `FlagText.TextOfFive` | examples/test_user_interaction/test_user_interaction.cpp:183-189 | the text of a five-flag table is the five flags' tokens concatenated in table order |
| `FlagText.TextIsSpacedWords` | examples/test_user_interaction/test_user_interaction.cpp:182-200 | appending one token per set flag, in table order, gives exactly the set flags' words, in table order, each followed by one space |
| `FlagText.TextStep` | examples/test_user_interaction/test_user_interaction.cpp:184-188 | testing one more flag appends exactly that flag's token to the text built so far |
| `FlagText.SetWords` | examples/test_user_interaction/test_user_interaction.cpp:184-188 | the selected words are at most as many as the flags, and each one is the word of a flag that is set |
| `FlagText.SetWordsMember` | examples/test_user_interaction/test_user_interaction.cpp:184-188 | a flag's word is selected iff its bit is set in the mask |
| `FlagText.SetWordsDistinct` | examples/test_user_interaction/test_user_interaction.cpp:184-188 | no word is selected twice |
| `FlagText.SetWordsEmpty` | examples/test_user_interaction/test_user_interaction.cpp:183-189 | no word is selected iff the mask has none of the table's bits |
| `FlagText.SetWordsOnlyKnownBits` | examples/test_user_interaction/test_user_interaction.cpp:184-188 | masks that agree on the table's bits select the same words |
| `FlagText.SetWordsSnoc` | examples/test_user_interaction/test_user_interaction.cpp:184-188 | the words of a table are those of all flags but the last, followed by the last flag's word if it is set |
| `FlagText.SpacedAppend` | examples/test_user_interaction/test_user_interaction.cpp:183-189 | joining two word lists joins their texts |
| `FlagText.WordsOfSpaced` | examples/test_user_interaction/test_user_interaction.cpp:183-189 | splitting a text of space-free words at its spaces gives back exactly those words (round trip) |
| `FlagText.SpaceIndexAfterWord` | examples/test_user_interaction/test_user_interaction.cpp:184 | in "WORD rest" with a space-free word, the first space comes right after the word |
| `FlagText.SpacedShape` | examples/test_user_interaction/test_user_interaction.cpp:183-189 | a non-empty text of non-empty, space-free words starts with a non-space, ends with a space and has no two spaces in a row |
| `FlagText.SpacedLength` | examples/test_user_interaction/test_user_interaction.cpp:183-189 | a text's length is the number of words plus their total length |
| `FlagText.MaskOfMembers` | examples/test_user_interaction/test_user_interaction.cpp:184-188 | decoding the words of exactly the set flags gives the mask restricted to the table's bits |
| `FlagText.ParseText` | examples/test_user_interaction/test_user_interaction.cpp:182-200 | parsing a formatter's text gives back the mask with all bits outside the table cleared |
| `FlagText.TextFacts` | examples/test_user_interaction/test_user_interaction.cpp:182-200 | for any well-formed table: empty iff no flag set, words round trip, each word present iff set and at most once, single-space shape, length, parse round trip |
| `UserInteraction.ShownCounts` | examples/test_user_interaction/test_user_interaction.cpp:154-160 | one reported count per scribble point; the last one reported is the counter's final value |
| `UserInteraction.ShownCountsPrefix` | examples/test_user_interaction/test_user_interaction.cpp:154-160 | the i-th count reported is the counter's value after the first i + 1 points |
| `UserInteraction.CountAfterAppend` | examples/test_user_interaction/test_user_interaction.cpp:156-158 | processing two runs of points one after the other equals processing their concatenation |
| `UserInteraction.ContinuingPointsCount` | examples/test_user_interaction/test_user_interaction.cpp:158 | points that do not start a gesture each add exactly one, so the reported counts rise by one per point |
| `UserInteraction.GestureCount` | examples/test_user_interaction/test_user_interaction.cpp:156-158 | one first point followed by k other points reports 0, 1, ..., k and leaves the counter at k, whatever it held before |
| `UserInteraction.FirstPointResets` | examples/test_user_interaction/test_user_interaction.cpp:157 | after a first point, the counter no longer depends on its earlier value or on earlier points |
| `UserInteraction.LastFlagIgnored` | examples/test_user_interaction/test_user_interaction.cpp:154-159 | runs that agree on which points are first report the same counts and end on the same counter; `last` neither resets nor stops the counter |
| `UserInteraction.Ordinal` | examples/test_user_interaction/test_user_interaction.cpp:72-80 | every mode has an index among the selector's nine entries |
| `UserInteraction.ActionAt` | examples/test_user_interaction/test_user_interaction.cpp:72-80 | an index names a mode iff it is one of the nine selector indices, and that mode's index is the index itself |
| `UserInteraction.ItemOfAction` | examples/test_user_interaction/test_user_interaction.cpp:72-80 | each mode's index selects the entry of the same name: NoMouseAction 0, PanPlot=DragPlotWindow 1, ..., ClickEvents 8 |
| `UserInteraction.ActionAtOrdinal` | examples/test_user_interaction/test_user_interaction.cpp:72-80 | indices and modes correspond one to one |
| `UserInteraction.TestUserInteraction.constructor` | examples/test_user_interaction/test_user_interaction.cpp:70-82 | the selector holds the nine entries NoMouseAction ... ClickEvents in order, index 0 is current and handed to the plot (NoMouseAction), and the counter starts at 0 |
| `UserInteraction.TestUserInteraction.SetLeftMouseAction` | examples/test_user_interaction/test_user_interaction.cpp:108-111 | the plot's mode becomes the given index unchanged, and nothing else changes |
| `UserInteraction.TestUserInteraction.SelectMouseAction` | examples/test_user_interaction/test_user_interaction.cpp:81 | picking a selector entry makes it current and hands its index to the plot, which then is in the mode of that index; the selector's entries stay the nine fixed ones |
| `UserInteraction.TestUserInteraction.UserScribbleClick` | examples/test_user_interaction/test_user_interaction.cpp:154-160 | a first point sets the counter to 0 and any other adds one. The counter always equals the count over all points received. The report carries the modifier text, both flags and the new count, which is the last of the counts reported over all points received (`ShownCounts`) |

## Left out

- Widget, layout, menu-bar and checkbox construction, and the signal/slot
  connections (lines 15-67 and 84-106). This is Qt plumbing. The checkboxes
  pass their state straight to a plot setter.
- The label texts built with `QString::arg` over `double` coordinates (lines
  113-179). Decimal formatting of floating point belongs to Qt. This includes
  the mislabelled templates: the scribble handler prints `userClickFinished`,
  and the circle and ellipse handlers print `userRectangleFinished`.
- UserInteraction.TestUserInteraction.UserScribbleClick: the report omits the
  point's x/y coordinates (floating point) and the text layout of the label.
  It also does not model the overflow of the C++ `int` counter after
  2^31 - 1 points, which is undefined behaviour in C++.
- UserInteraction.TestUserInteraction.UserScribbleClick: the source keeps the
  counter in a function-local `static`, shared by every window in the
  process. The model keeps it in the window object. The example creates
  one window, so the two agree.
- The context-menu extension and its modal message box (lines 133-142). This
  is UI and callback plumbing.
- `initPlot` (lines 203-244). Its sine and exponential data is floating-point
  numerics, and it calls the plotting library's data store and graphs.
- Everything `JKQTPlotter` does itself: zooming, interpreting mouse actions,
  the toolbar, the print and save actions. The declaration of its
  `MouseActionModes` enumeration is not part of this model. The source's cast
  assumes that the enumeration's declaration order matches the selector, and
  the model names the mode at index i after the selector's i-th entry on that
  same assumption.
- UserInteraction.TestUserInteraction.constructor: Qt makes the first item
  added to an empty combo box the current one, and the source relies on this
  at line 82. The model sets index 0 directly and does not model the combo
  box's own behaviour.
- Qt's flag constants themselves (`qnamespace.h`). The model uses their bit
  positions. It does not model flags words with more than one bit per flag.
