# HUD text library of Doom Retro, in Dafny

This project models the bookkeeping half of the heads-up-display text
library (`src/hu_lib.c`): the bounded text line, the scrolling message log
and the input line editor, together with the erase logic that decides which
screen areas are cleared before text is redrawn and how long a line keeps
asking to be redrawn.

It has two layers.

- **Specification modules.** `HuText`, `HuErase`, `HuSText` and `HuIText`
  describe each structure as a value: `LineState`, `LogState` and
  `EditorState`. Each operation is a function over these values, and the
  lemmas prove what the library promises about them:
  - truncation at `MaxLineLength`;
  - the ring cursor and its wrap-around;
  - the protected left margin;
  - the key classification;
  - counter decay;
  - the exact screen area the erase calls cover.
- **Module `HuLib`.** It holds the structures as the C code keeps them,
  objects updated in place:
  - `TextLine` holds a character array of `MaxLineLength + 1` slots, its
    length and its redraw counter;
  - `SText` holds `h` lines used as a ring;
  - `IText` holds a line and a left margin;
  - `Video` records the `R_VideoErase` calls.

  Every method is proved to leave its object in exactly the state that the
  matching specification function computes from the state before the call.
  The loops are the C code's own loops:
  - appending a string;
  - walking the rows to erase;
  - marking every line;
  - erasing every line;
  - deleting down to the margin.

Constants that come from headers outside `hu_lib.c` are named once:
`MaxLineLength` (HU_MAXLINELENGTH, 80), `MaxLines` (HU_MAXLINES, 4),
`KeyBackspace` (127) and `KeyEnter` (13). A C string is a `seq<char>` that
is read up to its first NUL, or to its end when it has none.

## Model

| member | source | states |
|---|---|---|
| HuText.Cleared | src/hu_lib.c:39-44 | the cleared line has empty text, a terminator in slot 0 and counter 1 (`true`, not 4); position, font and the rest of the buffer are kept |
| HuText.InitLine | src/hu_lib.c:46-53 | a new line records position, font height and start character and is empty with counter 1 |
| HuText.AddChar | src/hu_lib.c:55-66 | refused (false, line unchanged) exactly when the line is full; otherwise the text gains `ch` at its end, the buffer stays NUL-terminated, the counter becomes 4 and the buffer past the new terminator is untouched |
| HuText.DelChar | src/hu_lib.c:68-78 | refused (false, line unchanged) exactly when the line is empty; otherwise the text loses exactly its last character, whose slot is zeroed, the counter becomes 4, and the slots after it are unchanged |
| HuText.AddThenDelete | src/hu_lib.c:55-78 | deleting a character just appended succeeds and restores the previous text |
| HuText.AppendAll | src/hu_lib.c:309-313 | the `while (*p)` append loops (also src/hu_lib.c:381-382): each character in turn through AddChar, refusals ignored; the line stays well formed and keeps its place |
| HuText.AppendAllText | src/hu_lib.c:309-313 | appending a string character by character leaves the old text plus the string cut at MaxLineLength, silently dropping the rest |
| HuText.AppendAllConcat | src/hu_lib.c:308-313 | appending the prefix and then the message is appending their concatenation |
| HuText.AppendAllMarks | src/hu_lib.c:61-63 | once an append has room, the counter ends at 4 |
| HuText.AppendAllKeepsMarked | src/hu_lib.c:57-64 | appending to a line whose counter is 4 leaves it at 4, since a refused character changes nothing |
| HuText.ClearThenAppend | src/hu_lib.c:298-313 | clearing a line and appending a string that fits stores exactly that string |
| HuText.FillThenOverflow | src/hu_lib.c:57-58 | filling an empty line to MaxLineLength succeeds, and the next character is refused with the length staying at MaxLineLength |
| HuText.StrLen | src/hu_lib.c:309-313 | the `while (*p)` loops stop at the first NUL, or at the end of a string that has none |
| HuText.StrLenWithoutNul | src/hu_lib.c:312-313 | a string with no NUL is read in full |
| HuErase.Decayed | src/hu_lib.c:275-276 | an erase pass lowers a nonzero counter by exactly one and leaves 0 at 0; text, buffer and place are kept |
| HuErase.EraseCalls | src/hu_lib.c:260-273 | erase calls are made if and only if the automap is off, the view is reduced, the counter is nonzero and the erase height is positive; they are then the row-by-row calls from the line's top, (font height + 4) × scale rows deep |
| HuErase.RowSpans | src/hu_lib.c:265-271 | one row's R_VideoErase calls: a single call for a row outside the view window's rows, two border calls inside them, the first starting at the row's first pixel |
| HuErase.RowsSpans | src/hu_lib.c:263-272 | the row loop's calls for rows top up to bottom; none for an empty range (their order is stated by HuErase.RowsSpansSplit, their number by HuErase.RowsSpansCount) |
| HuErase.RowsSpansCount | src/hu_lib.c:263-272 | the row loop makes between one and two calls per row |
| HuErase.RowsSpansEmpty | src/hu_lib.c:263 | the row loop makes calls exactly when its range holds a row |
| HuErase.RowsSpansSplit | src/hu_lib.c:263-272 | the calls come in increasing row order: a row range's calls are those of its lower part followed by those of the rest |
| HuErase.RowsSpansRow | src/hu_lib.c:265-271 | each row contributes its own calls in place: one full-width call outside the view window's rows, two border calls inside them |
| HuErase.DecayAfterPasses | src/hu_lib.c:275-276 | after k passes the counter is max(0, n − k), and nothing else about the line changes |
| HuErase.RowSpansCover | src/hu_lib.c:265-271 | with a centred view window, one row's calls erase a pixel exactly when it is in that row and outside the window |
| HuErase.RowsSpansCover | src/hu_lib.c:260-273 | with a centred view window, the calls for rows top..bottom−1 erase a pixel exactly when it lies in those rows and outside the window: nothing inside the window, nothing in other rows |
| HuSText.InitLog | src/hu_lib.c:279-289 | a new log has h empty lines with counter 1, slot i at y − i·(font height + 1) with the given x, font height and start character; the cursor is at 0 and the log is marked visible |
| HuSText.NextCursor | src/hu_lib.c:296-297 | the cursor step is (cl + 1) mod h |
| HuSText.AddLine | src/hu_lib.c:291-303 | the cursor moves to (cl + 1) mod h; that slot is cleared; every other slot keeps its text; every slot's counter is 4 |
| HuSText.CursorAfterMod | src/hu_lib.c:296-297 | k cursor steps move the cursor to (cl + k) mod h |
| HuSText.AddLinesCursor | src/hu_lib.c:291-303 | k new lines take the cursor k steps |
| HuSText.CursorAfterLines | src/hu_lib.c:291-303 | after k new lines the cursor is (cl + k) mod h |
| HuSText.CursorWraps | src/hu_lib.c:296-297 | after h new lines the cursor is back where it started, and h + 1 lines leave it where one does |
| HuSText.NewestFirst | src/hu_lib.c:325-330 | slot i in drawing order is (cl − i) mod h |
| HuSText.NewestFirstVisitsAll | src/hu_lib.c:325-330 | drawing starts at the newest line and visits every slot exactly once |
| HuSText.PrefixText | src/hu_lib.c:308-310 | a null prefix contributes nothing; otherwise the prefix up to its first NUL, which holds no NUL |
| HuSText.AddLineShiftsOrder | src/hu_lib.c:296-329 | a new line takes the slot drawn last (the oldest message), and the older messages move one place down in drawing order |
| HuSText.AddMessage | src/hu_lib.c:305-314 | adding a message moves the cursor as a new line does, and no line but the newest changes its text |
| HuSText.AddMessageText | src/hu_lib.c:305-314 | the newest line holds the first MaxLineLength characters of prefix (none when null) and message; the excess is dropped |
| HuSText.AddMessageMarks | src/hu_lib.c:301-313 | after a message every slot's counter is 4 (the new line's marking loop, unchanged by the appends) and every line keeps its place |
| HuSText.ShortMessageStored | src/hu_lib.c:305-314 | a NUL-free prefix and message that fit together are stored joined, verbatim |
| HuSText.Forced | src/hu_lib.c:344-345 | when the log has just been hidden, a line's counter is forced to 4 |
| HuSText.EraseSpans | src/hu_lib.c:342-347 | the erase calls of the whole log are those of each slot in order, and there are none while the automap is up or the view is full |
| HuSText.ForcedEraseSpans | src/hu_lib.c:342-347 | when the log has just been hidden, with the automap off and a reduced view, each slot's rows are erased in full, in slot order, whatever the counters were |
| HuSText.EraseLog | src/hu_lib.c:338-349 | erasing keeps every line's text and place; each counter ends at 3 when the log has just been hidden and otherwise decays by one; laston becomes the current visibility; a forced erase off the automap with a reduced view issues every slot's full row calls in slot order, and none are issued under the automap or a full view |
| HuIText.InitEditor | src/hu_lib.c:351-357 | a new editor is empty with margin 0, marked visible |
| HuIText.DelCharAboveMargin | src/hu_lib.c:360-364 | deletion is a no-op at the margin, and above it removes exactly the last character; the margin invariant lm ≤ len holds |
| HuIText.EraseToMargin | src/hu_lib.c:366-370 | erasing the line keeps the margin invariant; the loop terminates because len − lm decreases |
| HuIText.EraseToMarginKeepsPrefix | src/hu_lib.c:366-370 | erasing the line ends with len == lm and the first lm characters unchanged |
| HuIText.Reset | src/hu_lib.c:373-377 | reset clears the line and puts the margin at 0 |
| HuIText.AddPrefix | src/hu_lib.c:379-384 | after a prefix the margin equals the new length |
| HuIText.AddPrefixProtects | src/hu_lib.c:379-384 | the line holds old text plus prefix cut at MaxLineLength, all of it protected from deletion |
| HuIText.ToUpper | src/hu_lib.c:390 | lower-case letters map to capitals; every other key code is kept |
| HuIText.Printable | src/hu_lib.c:392 | the printable range ' '..'_'; backspace and enter lie outside it |
| HuIText.KeyIn | src/hu_lib.c:388-400 | the key is eaten if and only if, upper-cased, it is printable (' '..'_'), backspace or enter; a printable key is appended when there is room and eaten leaving the editor unchanged on a full line; backspace is the margin-protected delete; enter and refused keys change nothing; lm ≤ len is kept |
| HuIText.LowerCaseStoredUpper | src/hu_lib.c:390-393 | a lower-case letter is eaten and stored as its capital |
| HuIText.EraseEditor | src/hu_lib.c:411-417 | erasing keeps text and margin; the counter ends at 3 when the editor has just been hidden and otherwise decays; laston becomes the current visibility; a forced erase off the automap with a reduced view issues the full row-by-row calls |
| HuLib.TextLine.Init | src/hu_lib.c:46-53 | the object's state is InitLine's, on fresh storage |
| HuLib.TextLine.Clear | src/hu_lib.c:39-44 | the object's new state is Cleared of the old |
| HuLib.TextLine.AddChar | src/hu_lib.c:55-66 | result and new state are AddChar of the old state |
| HuLib.TextLine.DelChar | src/hu_lib.c:68-78 | result and new state are DelChar of the old state |
| HuLib.TextLine.AppendString | src/hu_lib.c:309-313 | the loop leaves the state AppendAll of the old state and the C string |
| HuLib.TextLine.Erase | src/hu_lib.c:250-277 | the row loop issues exactly EraseCalls of the old state, and the counter decays |
| HuLib.SText.Init | src/hu_lib.c:279-289 | the log's state is InitLog's; the lines are fresh and distinct |
| HuLib.SText.NewLines | src/hu_lib.c:287-288 | the loop creates h distinct lines, slot i initialised at y − i·(font height + 1) |
| HuLib.SText.AddLine | src/hu_lib.c:291-303 | the new state is AddLine of the old |
| HuLib.SText.MarkAll | src/hu_lib.c:301-302 | every line's counter becomes 4 and nothing else changes |
| HuLib.SText.AddMessage | src/hu_lib.c:305-314 | the new state is AddMessage of the old |
| HuLib.SText.WriteNewest | src/hu_lib.c:308-313 | the newest line receives the prefix and then the message |
| HuLib.SText.Draw | src/hu_lib.c:316-336 | nothing is drawn when the log is off; otherwise the slots are drawn in NewestFirst order |
| HuLib.SText.Erase | src/hu_lib.c:338-349 | the new state and the erase calls are EraseLog of the old state |
| HuLib.SText.EraseAll | src/hu_lib.c:342-347 | the loop erases every slot in order, issuing EraseSpans |
| HuLib.SText.EraseSlot | src/hu_lib.c:344-346 | one slot is forced when asked and erased; the other slots are unchanged |
| HuLib.IText.Init | src/hu_lib.c:351-357 | the editor's state is InitEditor's |
| HuLib.IText.DelChar | src/hu_lib.c:360-364 | the new state is DelCharAboveMargin of the old |
| HuLib.IText.EraseLine | src/hu_lib.c:366-370 | the loop terminates, with the new state EraseToMargin of the old |
| HuLib.IText.Reset | src/hu_lib.c:373-377 | the new state is Reset of the old |
| HuLib.IText.AddPrefix | src/hu_lib.c:379-384 | the new state is AddPrefix of the old |
| HuLib.IText.KeyIn | src/hu_lib.c:388-400 | the result and new state are KeyIn of the old state |
| HuLib.IText.Erase | src/hu_lib.c:411-417 | the new state and erase calls are EraseEditor of the old state |

## Left out

- HUlib_drawTextLine (src/hu_lib.c:127-247) is left out. It composites pixels into global frame buffers, using external blend tables, glyph strings, a lump flag and a foreign patch-drawing call, and it keeps `prev` as a function-static across calls. The upper-casing it applies at draw time is not modelled either.
- The kerning loop (src/hu_lib.c:172-177) is left out with the drawing. It scans for a zero `char1`, but the table at src/hu_lib.c:115-125 has no zero entry, so it would read past the array.
- HU_drawChar and HU_drawDot (src/hu_lib.c:80-108) write external glyph data into an external buffer, and their transparency byte is not legible in the source text.
- HUlib_drawSText (src/hu_lib.c:316-336) keeps only its visibility gate and the order of the slots it hands to the renderer (`SText.Draw`). HUlib_drawIText (src/hu_lib.c:402-409) is left out: it is a visibility gate in front of the renderer.
- R_VideoErase is not performed. `Video.VideoErase` only records each call's offset and count.
- The font pointer and the SHORT byte swap become the parameter `fontHeight`. The glyph pointer array `f` is not kept.
- `boolean *on` is a parameter of the erase and draw operations: its value at the time of the call. The aliasing of one flag by several structures is not modelled.
- HU_MAXLINELENGTH, HU_MAXLINES, KEY_BACKSPACE and KEY_ENTER come from headers outside `hu_lib.c`. They are assumed to be 80, 4, 127 and 13.
- HuLib.SText.Init allocates exactly `h` line slots and requires 0 < h ≤ MaxLines. The C structure has room for HU_MAXLINES lines and writes past them when `h` is larger. With h = 0 the first new line would move the cursor to 1 and clear a slot the log does not have.
- HuLib.TextLine.Init initialises fresh, zero-filled storage. Re-initialising existing storage, which keeps the buffer's old bytes past slot 0, is covered by HuText.Cleared's statement that the rest of the buffer is kept.
- Characters are Dafny `char` (Unicode scalar values), a superset of C's 8-bit `char`. No operation here depends on the difference; key codes are bytes (0..255).
- Integer widths are not modelled: the model's integers are unbounded. The counter stays within 0..4, line lengths within 0..80 and the cursor below `h`, so only the screen-offset products could overflow, for coordinates far outside any screen.
