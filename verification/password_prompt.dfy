/** The password prompt widget: the status glyph, the label, a separator
    and one `*` per character of the value, shown on the first row of the
    area and never wrapped.  The cursor stays on that row; its column is
    clamped to the area's width, which lets it reach the cell just right of
    the area. */
module PasswordPrompt {
  import opened Base
  import opened Text
  import opened PromptStatus
  import opened EditState
  import opened Wrapping
  import opened Widget

  /** The label; an enclosing block is not modelled, the area given to
      `Render` being the block's inner area. */
  datatype PasswordPrompt = PasswordPrompt(message: string)

  /** The separator as the source spells it: the UTF-8 bytes of " › " read
      back as Windows-1252, five characters wide. */
  const Separator: string := " â€º "

  /** The logical line: status glyph, a space, the bold label, the dimmed
      separator, then the masked value.  Glyph, space and the five-column
      separator take seven columns besides the label and the mask. */
  function PasswordLine(prompt: PasswordPrompt, s: TextState): (line: Line)
    ensures line.alignment == Unset
    ensures LineWidth(line) == 7 + |prompt.message| + |s.value|
  {
    var glyph := s.status.Symbol();
    var masked := Mask(s.value);
    SymbolsDistinctAndNarrow(s.status, s.status);
    FiveSpansWidth(glyph, Span(" ", Plain), Span(prompt.message, Bold), Span(Separator, CyanDim), Span(masked, Plain));
    Line([glyph, Span(" ", Plain), Span(prompt.message, Bold), Span(Separator, CyanDim), Span(masked, Plain)], Unset)
  }

  /** The width in front of the masked value: the line's width less the
      mask's length, which is seven columns plus the label. */
  function PrefixWidth(prompt: PasswordPrompt, s: TextState): (w: nat)
    ensures w == 7 + |prompt.message|
  {
    LineWidth(PasswordLine(prompt, s)) - |Mask(s.value)|
  }

  /** Converts to `u16`, falling back to `default` when the value does not fit. */
  function U16Or(x: nat, default: U16): (r: U16)
    ensures x < 0x1_0000 ==> r == x
    ensures x >= 0x1_0000 ==> r == default
  {
    if x < 0x1_0000 then x else default
  }

  /** Renders the prompt: the area's first row shows the line's leading
      cells, as many as the area is wide (nothing when the area has no row),
      and the cursor is put on that row, past the prefix and the edit offset
      but no further right than the area's width. */
  function Render(prompt: PasswordPrompt, area: Rect, s: TextState): (r: Rendered)
    ensures r.state.(cursor := s.cursor) == s
    ensures r.state.cursor.1 == area.y
    ensures area.x <= r.state.cursor.0 <= area.x + area.width
    ensures |r.lines| == if area.height == 0 then 0 else 1
    ensures forall i :: 0 <= i < |r.lines| ==> LineWidth(r.lines[i]) <= area.width
  {
    var line := PasswordLine(prompt, s);
    var shown := if area.height == 0 then [] else [LineSplitAt(line, area.width).0];
    var column := U16Or(Min(PrefixWidth(prompt, s) + s.position, area.width), 0);
    Rendered(shown, s.(cursor := (area.x + column, area.y)))
  }

  /** The column conversion never falls back: the clamped column is at most
      the area's width, which is itself a `u16`. */
  lemma ColumnFitsU16(prompt: PasswordPrompt, area: Rect, s: TextState)
    ensures U16Or(Min(PrefixWidth(prompt, s) + s.position, area.width), 0)
      == Min(PrefixWidth(prompt, s) + s.position, area.width)
  {
  }

  /** The cursor column: seven columns plus the label plus the edit offset
      past the area's left edge while that fits the width, and otherwise
      exactly the width, one cell right of the area's last column. */
  lemma CursorColumn(prompt: PasswordPrompt, area: Rect, s: TextState)
    ensures var offset := 7 + |prompt.message| + s.position;
      && (offset <= area.width ==> Render(prompt, area, s).state.cursor == (area.x + offset, area.y))
      && (offset >= area.width ==> Render(prompt, area, s).state.cursor == (area.x + area.width, area.y))
  {
  }

  /** The row shows exactly the line's first `width` cells. */
  lemma RenderShowsLeadingCells(prompt: PasswordPrompt, area: Rect, s: TextState)
    requires area.height >= 1
    ensures var line := PasswordLine(prompt, s);
      Cells(Render(prompt, area, s).lines[0].spans) == Cells(line.spans)[..Min(area.width, LineWidth(line))]
  {
    LineSplitCells(PasswordLine(prompt, s), area.width);
  }

  /** The text of the line: glyph, space, label, separator and one `*` per
      character of the value. */
  lemma PasswordLineContent(prompt: PasswordPrompt, s: TextState)
    ensures Content(PasswordLine(prompt, s).spans)
      == s.status.Symbol().content + " " + prompt.message + Separator + Mask(s.value)
  {
    var line := PasswordLine(prompt, s);
    FiveSpansContent(line.spans[0], line.spans[1], line.spans[2], line.spans[3], line.spans[4]);
    assert line.spans == [line.spans[0], line.spans[1], line.spans[2], line.spans[3], line.spans[4]];
  }

  /** Only the value's length reaches the screen: two states that differ in
      the value alone, with values of equal length, render identically. */
  lemma RenderHidesValue(prompt: PasswordPrompt, area: Rect, s: TextState, value: string)
    requires |value| == |s.value|
    ensures Render(prompt, area, s.(value := value)).lines == Render(prompt, area, s).lines
    ensures Render(prompt, area, s.(value := value)).state.cursor == Render(prompt, area, s).state.cursor
  {
    assert Mask(value) == Mask(s.value);
    assert PasswordLine(prompt, s.(value := value)) == PasswordLine(prompt, s);
  }

  /** Draws the prompt: renders it, and moves the terminal cursor to the
      computed cell only when the prompt has focus. */
  function Draw(prompt: PasswordPrompt, area: Rect, s: TextState): (d: Drawn)
    ensures d.frameCursor.Some? <==> s.focus.IsFocused()
    ensures d.frameCursor.Some? ==> d.frameCursor.value == d.rendered.state.cursor
    ensures d.rendered.state.(cursor := s.cursor) == s
  {
    var r := Render(prompt, area, s);
    Drawn(r, if r.state.focus.IsFocused() then Some(r.state.cursor) else None)
  }
}
