# tui-prompts in Dafny

This is a model of the core of `tui-prompts`, a Rust library of interactive terminal prompts built on ratatui. The model covers:

- **The edit-state machine.** This is the `State` trait's default operations on a `TextState` record (status, focus, edit offset, cursor cell, value). It includes the fixed key table that maps key events onto those operations.
- **The render styles of the text prompt.** The value is shown as typed, masked with `*`, or not at all.
- **The character wrap engine.** `wrap`, `line_split_at` and `span_split_at` cut one styled line into lines of at most `width` columns.
- **The cursor arithmetic of the text prompt.** The edit offset is moved past the prefix, clamped to the area's last cell, and laid out row by row.
- **The password prompt.** It shows a masked value on a single row, and its cursor column is clamped to the area's width.

## Modules

| file | module | contents |
|---|---|---|
| base.dfy | `Base` | `Option`, `Rect`, the `u16` range, two facts about products |
| text.dfy | `Text` | spans, lines, styles, the cells (character plus style) a line shows, and the width and text of five spans in a row |
| status.dfy | `PromptStatus` | `Status`, `IsFinished`, the status glyphs |
| edit_state.dfy | `EditState` | `Focus`, `TextState`, the builder functions, the `Valid` invariant |
| keys.dfy | `Keys` | key codes, modifiers and key-event kinds |
| actions.dfy | `Actions` | the operations a key event can select |
| editing.dfy | `Editing` | the editing operations, the key table, key handling |
| wrapping.dfy | `Wrapping` | span and line splitting, the wrap, and the row layout of its output |
| cursor.dfy | `Cursor` | offset-to-cell mapping for the text prompt |
| widget.dfy | `Widget` | the mask both prompts show for a secret value, and what a render and a draw produce |
| text_prompt.dfy | `TextPrompt` | render styles, the prompt line, `Render`, `Draw`, and the drawing examples |
| password_prompt.dfy | `PasswordPrompt` | the password line, `Render`, `Draw`, `U16Or` |

## Modelling choices

- **Characters are one byte and one column wide.** The original indexes the value by byte (`String::insert`, `remove`, `truncate`, `str::split_at`) and measures widths in display columns. Under this assumption a byte offset, a character offset and a column are the same number, and a span's width is its length. The cursor mapper `Cursor.CursorAt` takes the prefix width as a parameter, so a wide label can still be described (`TextPrompt.EmojiLabelCursor`).
- **Panics become preconditions.** Inserting or removing past the end of the value, and splitting a span past its end, panic in the original; the model requires the caller to avoid them. `Editing.ApplyKeepsValid` shows that a state whose offset is within the value never reaches those panics.
- **Rendering is described by cells.** A terminal cell is a character and its style. The text prompt's `Render` returns the wrapped lines, keeping as many as the area has rows, and the state with its new cursor cell. The password prompt's `Render` returns the line's first `width` cells on the first row, which is what an unwrapped paragraph shows.
- **The area is the inner area.** The area given to `Render` is taken to be the area left after any enclosing block has drawn its border.
- **Areas hold at most 65535 cells.** `Rect` is the rectangles whose width times height is below 65536. ratatui's `Rect::new` shrinks a rectangle until its area fits a `u16`, and `area.area()` at src/text_prompt.rs:107 is that `u16` product.

## Where the code differs from its documentation

The model follows the code in each case.

- **Backspace at offset 0.** `backspace` steps the offset back with a saturating subtraction, so at offset 0 on a non-empty value it removes the first character (`Editing.Backspace`).
- **Ctrl+U.** The key list at src/prompt.rs:43 says Ctrl+U deletes to the start of the line. The key is bound to `truncate`, which empties the whole value (`Editing.Truncate`, `Editing.DispatchMatchesDocs`).
- **Finished prompts.** No editing operation looks at the status, so a completed or aborted prompt still accepts edits (`Editing.TypingAfterCompletion`, `Editing.EditsIgnoreStatus`).
- **The Aborted glyph.** The rendering test at src/text_prompt.rs:287 expects "✘" for an aborted prompt. `Status::symbol` returns "✖", as the test at src/prompt.rs:174-177 says.
- **The password separator.** It is written as `" â€º "`, the UTF-8 bytes of `" › "` misread as Windows-1252. It is five columns wide, so the password prefix is 7 columns plus the label, against 5 plus the label for the text prompt.
- **Zero-width spans after a cut.** `line_split_at` sends a zero-width span that comes after the cut to the first half when that half is exactly full (`Wrapping.EmptySpanAfterCut`).
- **Text cursor past the value.** The text prompt's cursor follows the edit offset past the end of the value, up to the last cell of the area, as the FIXME-marked test cases record (`TextPrompt.CursorPastValue`, `TextPrompt.DrawClamped`).
- **Password cursor outside the area.** The password prompt's cursor column is clamped to the area's width, not to width - 1, so it can sit one cell right of the area (`PasswordPrompt.CursorColumn`).

## Model

| member | source | states |
|---|---|---|
| PromptStatus.FinishedStatuses | src/status.rs:4-16 | a status is finished exactly when it is Done or Aborted; the default status, Pending, is not finished |
| PromptStatus.StatusSymbols | src/status.rs:18-42 | Pending shows a cyan "?", Aborted a red "✖", Done a green "✔" |
| PromptStatus.SymbolsDistinctAndNarrow | src/status.rs:35-42 | each glyph is one column wide and the three glyphs tell the statuses apart |
| EditState.New | src/text_state.rs:5-18 | the default record is pending, unfocused, at offset 0, with cursor (0, 0) and an empty value |
| EditState.WithValue | src/text_state.rs:20-24 | replaces the value and leaves every other field unchanged |
| EditState.WithStatus | src/text_state.rs:26-30 | replaces the status and leaves every other field unchanged |
| EditState.WithFocus | src/text_state.rs:32-36 | replaces the focus and leaves every other field unchanged |
| EditState.TextState.IsFinished | src/text_state.rs:38-41 | a state is finished exactly when its status is Done or Aborted |
| EditState.Focus.IsFocused | src/prompt.rs:24-29 | a prompt has focus exactly when it is not in the default `Unfocused` state |
| EditState.WithValueValidity | src/text_state.rs:20-24 | a new state given a value has its offset within the value; on an existing state the offset stays within the new value exactly when it did not exceed its length |
| Editing.Complete | src/prompt.rs:98-100 | the status becomes Done, so the prompt is finished; no other field changes |
| Editing.Abort | src/prompt.rs:102-104 | the status becomes Aborted, so the prompt is finished; no other field changes |
| Editing.Delete | src/prompt.rs:106-112 | at the end of the value nothing changes; otherwise the character at the offset is removed and the offset is kept |
| Editing.Backspace | src/prompt.rs:114-121 | with q the offset less one (saturating at 0), the character at q is removed and the offset becomes q; on a valid state this is a no-op exactly when the value is empty |
| Editing.MoveRight | src/prompt.rs:123-128 | the offset advances by one unless it is at the end of the value; nothing else changes |
| Editing.MoveLeft | src/prompt.rs:130-132 | the offset steps back by one, saturating at 0; nothing else changes |
| Editing.MoveEnd | src/prompt.rs:134-136 | the offset becomes the value's length; nothing else changes |
| Editing.MoveStart | src/prompt.rs:138-140 | the offset becomes 0; nothing else changes |
| Editing.Kill | src/prompt.rs:142-145 | the value becomes its prefix of length min(offset, length); the offset and other fields are kept |
| Editing.Truncate | src/prompt.rs:147-150 | the value becomes empty and the offset 0; nothing else changes |
| Editing.Push | src/prompt.rs:152-156 | the character is inserted at the offset, everything else in the value is kept in place around it, and the offset moves past it |
| Editing.Dispatch | src/prompt.rs:80-95 | every operation the key table selects is one the key list documents for that chord (Ctrl+U selecting truncate) |
| Editing.Apply | src/prompt.rs:81-94 | no selected operation moves the focus or the rendered cursor, and each keeps the edit offset within the value |
| Editing.HandleKey | src/prompt.rs:75-96 | a release event changes nothing; any event keeps a valid state valid |
| Editing.HandleKeys | examples/text.rs:102-108 | feeding a state key events one after another, as the host loop does, keeps a valid state valid; a sequence of release events changes nothing |
| Editing.ApplyKeepsValid | src/prompt.rs:98-156 | from a state whose offset is within the value, every operation can run without panicking and keeps the offset within the value |
| Editing.DispatchMatchesDocs | src/prompt.rs:80-95 | the key table selects an operation exactly for the chords the key list documents (Ctrl+U selecting truncate) and a plain character for insertion; every other event is ignored |
| Editing.PushThenBackspace | src/prompt.rs:152-156 | inserting a character and then backspacing gives back the original state |
| Editing.DeleteThenReinsert | src/prompt.rs:106-112 | deleting forward, reinserting the removed character and moving left gives back the original state |
| Editing.RightThenLeft | src/prompt.rs:123-132 | inside the value, moving right then left gives back the original state |
| Editing.KillIdempotent | src/prompt.rs:142-145 | killing twice gives the same state as killing once |
| Editing.EditsIgnoreStatus | src/prompt.rs:98-156 | every operation but complete and abort acts the same whatever the status; complete and abort change only the status |
| Editing.TypingAfterCompletion | src/prompt.rs:98-100 | a completed prompt is finished, yet inserting a character still changes its value |
| Wrapping.SpanSplitAt | src/text_prompt.rs:172-183 | the two pieces concatenate to the content, the first piece is `mid` long, and both keep the span's style |
| Wrapping.SpanSplitCells | src/text_prompt.rs:172-183 | the pieces show the cells before and after the cut |
| Wrapping.SplitSpans | src/text_prompt.rs:150-163 | the first half is as wide as the room left, the second holds the rest of the width, at most one span is cut, and spans that fit are all kept in the first half |
| Wrapping.SplitSpansCells | src/text_prompt.rs:150-163 | the first half shows the cells up to the cut and the second half the cells after it |
| Wrapping.LineSplitAt | src/text_prompt.rs:145-165 | both halves keep the alignment; the first is min(mid, width) wide and the second has the rest; a line that fits goes whole into the first half |
| Wrapping.LineSplitCells | src/text_prompt.rs:145-165 | the first half shows the line's first min(mid, width) cells and the second the remaining cells, in order and with their styles |
| Wrapping.Wrap | src/text_prompt.rs:124-139 | every line is between 1 and `width` columns wide, every line but the last is exactly `width` wide, all keep the alignment, a zero-width line gives no lines, a line that fits is emitted alone, and the lines lay the input's cells out in rows |
| Wrapping.WrapConcat | src/text_prompt.rs:124-139 | laid end to end, the wrapped lines show exactly the input's cells |
| Wrapping.WrapCount | src/text_prompt.rs:124-139 | the number of lines is the line's width divided by `width`, rounded up |
| Wrapping.WrapRow | src/text_prompt.rs:124-139 | line i holds the input's cells from column i * width on, up to `width` of them |
| Wrapping.WrapTake | src/text_prompt.rs:104 | keeping the first n wrapped lines keeps the input's first n * width cells, or all of them |
| Wrapping.WrapRowText | src/text_prompt.rs:124-139 | the text of line i is the input's text from column i * width, up to `width` characters long |
| Wrapping.WrapCell | src/text_prompt.rs:124-139 | cell `col` of line `row` is the input's cell row * width + col, and that line exists whenever the cell does |
| Wrapping.EmptySpanAfterCut | src/text_prompt.rs:150-163 | a zero-width span after a cut at a span boundary lands in the first half |
| Cursor.Offset | src/text_prompt.rs:107 | the offset past the prefix, or the last cell when that offset does not fit; always less than the area's size |
| Cursor.CellOf | src/text_prompt.rs:108-109 | the column is less than the width, the row is less than the height, and row * width + column gives back the offset |
| Cursor.CursorAt | src/text_prompt.rs:106-114 | the cursor cell lies inside the area |
| Cursor.CellOfUnique | src/text_prompt.rs:108-109 | any column and row that read back as the offset are the ones computed |
| Cursor.CursorInverse | src/text_prompt.rs:106-114 | when the offset past the prefix fits the area, reading the cursor cell back row by row gives that offset |
| Cursor.CursorClamps | src/text_prompt.rs:106-107 | once the offset past the prefix reaches the last cell, the cursor stays on the bottom-right cell |
| Cursor.CellOfMonotone | src/text_prompt.rs:108-109 | a larger offset never lies on an earlier cell in reading order |
| Cursor.CursorMonotone | src/text_prompt.rs:106-114 | moving the edit offset forward never moves the cursor backward in reading order |
| Widget.Mask | src/text_prompt.rs:41 | one `*` per character of the value and nothing else |
| TextPrompt.RenderValue | src/text_prompt.rs:36-45 | Default shows the value, Password shows one `*` per character, Invisible shows nothing |
| TextPrompt.PromptLine | src/text_prompt.rs:96-102 | the prompt line has no alignment set and is five columns plus the label plus the shown value wide |
| TextPrompt.PrefixWidth | src/text_prompt.rs:103 | the prefix in front of the value is five columns plus the label, whatever the status and the style |
| TextPrompt.PromptLineContent | src/text_prompt.rs:96-102 | the line reads glyph, space, label, " › ", shown value |
| TextPrompt.Render | src/text_prompt.rs:88-116 | at most `height` lines are kept, each between 1 and `width` columns wide; only the cursor of the state changes, and it lies inside the area |
| TextPrompt.RenderKeepsLeadingCells | src/text_prompt.rs:104 | the kept lines show exactly the prompt line's first width * height cells, or all of them |
| TextPrompt.RenderedCursor | src/text_prompt.rs:103-114 | the cursor is the cell of the edit offset moved past five columns and the label, whatever the status and the render style |
| TextPrompt.RenderCursor | src/text_prompt.rs:103-114 | inside the area, the cursor is the cell of the offset five columns plus the label past the edit offset |
| TextPrompt.CursorOnCharacter | src/text_prompt.rs:88-116 | with the value shown as typed and the cell inside the area, the rendered cell under the cursor holds the character at the edit offset |
| TextPrompt.RenderHidesValue | src/text_prompt.rs:36-45 | under Invisible, or under Password with equal lengths, two values render the same lines and the same cursor |
| TextPrompt.RenderFits | src/text_prompt.rs:104 | a prompt line that fits the width is rendered as itself on one line |
| TextPrompt.Draw | src/text_prompt.rs:77-82 | the terminal cursor is moved exactly when the prompt has focus, and then to the rendered cursor cell |
| TextPrompt.DrawnCursor | src/text_prompt.rs:77-82 | a focused prompt moves the terminal cursor to the cell of the edit offset, five columns plus the label in |
| TextPrompt.HelloWorldText | src/text_prompt.rs:441-448 | "hello world" after the label "prompt" reads "? prompt › hello world" |
| TextPrompt.HelloWorldWraps | src/text_prompt.rs:441-448 | on a 17 by 2 area that line wraps to "? prompt › hello " and "world" |
| TextPrompt.DrawPositions | src/text_prompt.rs:396-435 | on a 17 by 2 area, offsets 0, 2, 3, 4, 5 give (11 + p, 0); 6, 7, 10, 12, 13 give (p - 6, 1); 22 and beyond give (16, 1) |
| TextPrompt.DrawWithinValue | src/text_prompt.rs:426-433 | an offset up to 13 shares the first row with the prefix below 6 and lands on the second row from 6 on |
| TextPrompt.DrawClamped | src/text_prompt.rs:402-403 | offsets 22 and beyond are clamped to the last cell (16, 1) |
| TextPrompt.CursorPastValue | src/text_prompt.rs:400 | "hello" takes one line, yet offset 6 moves the cursor to (0, 1) |
| TextPrompt.UnfocusedDraw | src/text_prompt.rs:372-381 | an unfocused prompt holding "hello" on a 17 by 2 area computes cursor (11, 0) but does not move the terminal cursor |
| TextPrompt.EmojiLabelCursor | src/text_prompt.rs:248-259 | with a seven-column prefix and an empty value in an 11 by 1 area, the cursor is (7, 0) |
| PasswordPrompt.PasswordLine | src/password_prompt.rs:55-63 | the password line has no alignment set and is seven columns plus the label plus the value's length wide |
| PasswordPrompt.PrefixWidth | src/password_prompt.rs:68 | the prefix in front of the mask is seven columns plus the label |
| PasswordPrompt.PasswordLineContent | src/password_prompt.rs:55-63 | the line reads glyph, space, label, " â€º ", one `*` per character |
| PasswordPrompt.U16Or | src/password_prompt.rs:77-79 | a value below 65536 is kept; a larger one gives the default |
| PasswordPrompt.Render | src/password_prompt.rs:47-75 | only the cursor changes; it is on the area's first row and at most `width` columns right of the left edge; one line is drawn (none on a zero-height area), at most `width` wide |
| PasswordPrompt.ColumnFitsU16 | src/password_prompt.rs:67-70 | the clamped column always fits a `u16`, so the fallback is never taken |
| PasswordPrompt.CursorColumn | src/password_prompt.rs:64-72 | the column is the left edge plus seven plus the label plus the edit offset while that fits the width, and the left edge plus the width otherwise |
| PasswordPrompt.RenderShowsLeadingCells | src/password_prompt.rs:57-73 | the drawn row shows exactly the password line's first `width` cells |
| PasswordPrompt.RenderHidesValue | src/password_prompt.rs:55 | two values of equal length render the same row and the same cursor |
| PasswordPrompt.Draw | src/password_prompt.rs:35-42 | the terminal cursor is moved exactly when the prompt has focus, and then to the rendered cursor cell |

## Left out

- The example programs and their terminal host loop (raw mode, event polling, focus switching between fields) are I/O. `Editing.HandleKeys` stands for the loop feeding key events.
- `src/password.rs` wraps an external text-area widget whose code is not visible. It is also not declared as a module in `src/lib.rs`.
- `src/lib.rs` only wires modules together.
- `password_state.rs` is not part of this model. The password prompt's state is modelled as the same record as `TextState`.
- `state.len()` and `state.is_focused()` are called but defined outside the visible files. They are taken to be the value's length and `focus.IsFocused()`.
- Enclosing blocks (`with_block`, `render_block`) are ratatui layout. `Render` takes the inner area.
- ratatui's `Paragraph`, `Buffer` and `Frame::set_cursor` are not modelled. Rendering is given as the lines or cells a paragraph shows, and the frame cursor as an `Option`.
- Colour and modifier meaning are not modelled. Styles are values the wrap only copies.
- Unicode display width and UTF-8 byte boundaries are not modelled: every character is one byte and one column. The multi-byte label test is covered only through the cursor mapper's prefix parameter (`TextPrompt.EmojiLabelCursor`).
- `Cow`'s borrowed/owned distinction is not modelled: the value is one owned sequence.
- Cursor.Offset: the edit offset is an unbounded natural, not a `usize`. The model does not reproduce how `push` and `move_right` saturate at `usize::MAX` (src/prompt.rs:127,155), or how `position + prompt_length` (src/text_prompt.rs:107) and `line.width() - password_len + state.position` (src/password_prompt.rs:68) overflow there. Reaching those values takes an offset set directly through `position_mut`.
- The `u16` casts in the text prompt's cursor are not modelled; their operands are already below the area's size. The overflow of `area.x + column` in either prompt is not modelled either: coordinates are unbounded naturals.
- TextPrompt.Render: requires a non-empty area. The original divides by the width and subtracts one from the area, so it panics on an empty area.
- The builders `TextPrompt::new`, `with_render_style` and `From` are the datatype constructor. The `State` accessor and `_mut` pairs are plain field reads and record updates, whose frame conditions the "nothing else changes" clauses of each operation state.
- Wrapping.SplitSpans: states the split through widths, cells and a span-count bound. It does not state that uncut spans appear unchanged in their half. A zero-width span can land in the first half after the cut, so the halves are not a plain prefix and suffix of the spans (`Wrapping.EmptySpanAfterCut`).
