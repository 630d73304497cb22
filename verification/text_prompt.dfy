/** The text prompt widget: it shows the status glyph, the label, a
    separator and the (possibly masked) value on one logical line, wraps
    that line into the rendering area, and places the terminal cursor on
    the cell of the edit offset. */
module TextPrompt {
  import opened Base
  import opened Text
  import opened PromptStatus
  import opened EditState
  import opened Wrapping
  import opened Cursor
  import opened Widget

  /** How the value is shown: as typed, masked, or not at all. */
  datatype TextRenderStyle = Default | Password | Invisible

  /** The label and the render style; an enclosing block is not modelled,
      the area given to `Render` being the block's inner area. */
  datatype TextPrompt = TextPrompt(message: string, renderStyle: TextRenderStyle)

  const Separator: string := " › "

  /** The text shown for the value under a render style. */
  function RenderValue(style: TextRenderStyle, s: TextState): (shown: string)
    ensures style == Default ==> shown == s.value
    ensures style == Password ==> |shown| == |s.value| && forall i :: 0 <= i < |shown| ==> shown[i] == '*'
    ensures style == Invisible ==> shown == []
  {
    match style
    case Default => s.value
    case Password => Mask(s.value)
    case Invisible => ""
  }

  /** The logical line: status glyph, a space, the bold label, the dimmed
      separator, then the shown value.  Glyph, space and the three-column
      separator take five columns besides the label and the value. */
  function PromptLine(prompt: TextPrompt, s: TextState): (line: Line)
    ensures line.alignment == Unset
    ensures LineWidth(line) == 5 + |prompt.message| + |RenderValue(prompt.renderStyle, s)|
  {
    var glyph := s.status.Symbol();
    var shown := RenderValue(prompt.renderStyle, s);
    SymbolsDistinctAndNarrow(s.status, s.status);
    FiveSpansWidth(glyph, Span(" ", Plain), Span(prompt.message, Bold), Span(Separator, CyanDim), Span(shown, Plain));
    Line([glyph, Span(" ", Plain), Span(prompt.message, Bold), Span(Separator, CyanDim), Span(shown, Plain)], Unset)
  }

  /** The width of everything in front of the value: the line's width less
      the shown value's length.  Whatever the status and the style, that is
      five columns plus the label. */
  function PrefixWidth(prompt: TextPrompt, s: TextState): (w: nat)
    ensures w == 5 + |prompt.message|
  {
    LineWidth(PromptLine(prompt, s)) - |RenderValue(prompt.renderStyle, s)|
  }

  /** Renders the prompt into an area at least one cell in each direction:
      the prompt line is wrapped to the area's width, at most the area's
      height of lines are kept, and the cursor cell is recomputed from the
      edit offset; nothing else in the state changes. */
  function Render(prompt: TextPrompt, area: Rect, s: TextState): (r: Rendered)
    requires area.width >= 1 && area.height >= 1
    ensures |r.lines| <= area.height
    ensures forall i :: 0 <= i < |r.lines| ==> 0 < LineWidth(r.lines[i]) <= area.width
    ensures r.state.(cursor := s.cursor) == s
    ensures area.x <= r.state.cursor.0 < area.x + area.width
    ensures area.y <= r.state.cursor.1 < area.y + area.height
  {
    var line := PromptLine(prompt, s);
    var lines := Wrap(line, area.width);
    var kept := lines[..Min(area.height, |lines|)];
    Rendered(kept, s.(cursor := CursorAt(s.position, PrefixWidth(prompt, s), area)))
  }

  /** The rendered lines hold exactly the first `width * height` cells of
      the prompt line: overflow is cut off, nothing else is lost. */
  lemma RenderKeepsLeadingCells(prompt: TextPrompt, area: Rect, s: TextState)
    requires area.width >= 1 && area.height >= 1
    ensures var line := PromptLine(prompt, s);
      LinesCells(Render(prompt, area, s).lines) == Cells(line.spans)[..Min(area.Area(), LineWidth(line))]
  {
    WrapTake(PromptLine(prompt, s), area.width, area.height);
    RowsWidthIsProduct(area.height, area.width);
  }

  /** With the value shown as typed, the cursor sits on the rendered cell
      of the character at the edit offset, as long as that cell lies inside
      the area. */
  lemma {:induction false} CursorOnCharacter(prompt: TextPrompt, area: Rect, s: TextState)
    requires area.width >= 1 && area.height >= 1
    requires prompt.renderStyle == Default
    requires s.position < |s.value|
    requires 5 + |prompt.message| + s.position < area.Area()
    ensures ShowsAt(Render(prompt, area, s), area, Cell(s.value[s.position], Plain))
  {
    var line := PromptLine(prompt, s);
    var c := CellOf(5 + |prompt.message| + s.position, area.width, area.height);
    var r := Render(prompt, area, s);
    var cell := Cell(s.value[s.position], Plain);
    RenderCursor(prompt, area, s);
    assert r.state.cursor.0 == area.x + c.0 && r.state.cursor.1 == area.y + c.1;
    PromptValueCell(prompt, s);
    WrapCell(line, area.width, c.1, c.0);
    RenderLines(prompt, area, s);
    KeptCell(Wrap(line, area.width), r.lines, area.height, c.1, c.0, cell);
    CursorCell(r, area, c.1, c.0, cell);
  }

  lemma CursorCell(r: Rendered, area: Rect, row: nat, col: nat, cell: Cell)
    requires r.state.cursor.0 == area.x + col && r.state.cursor.1 == area.y + row
    requires CellIs(r.lines, row, col, cell)
    ensures ShowsAt(r, area, cell)
  {
  }

  lemma RenderLines(prompt: TextPrompt, area: Rect, s: TextState)
    requires area.width >= 1 && area.height >= 1
    ensures var lines := Wrap(PromptLine(prompt, s), area.width);
      Render(prompt, area, s).lines == lines[..Min(area.height, |lines|)]
  {
  }

  lemma KeptCell(lines: seq<Line>, kept: seq<Line>, height: nat, row: nat, col: nat, cell: Cell)
    requires kept == lines[..Min(height, |lines|)]
    requires row < height && row < |lines|
    requires col < |Cells(lines[row].spans)| && Cells(lines[row].spans)[col] == cell
    ensures CellIs(kept, row, col, cell)
  {
  }

  /** Column `col` of line `row` holds `cell`. */
  predicate CellIs(lines: seq<Line>, row: int, col: int, cell: Cell)
  {
    0 <= row < |lines| && 0 <= col < |Cells(lines[row].spans)| && Cells(lines[row].spans)[col] == cell
  }

  /** The rendered cell under the cursor holds `cell`; rows and columns are
      counted from the area's corner. */
  predicate ShowsAt(r: Rendered, area: Rect, cell: Cell)
  {
    CellIs(r.lines, r.state.cursor.1 - area.y, r.state.cursor.0 - area.x, cell)
  }

  /** Inside the area, the rendered cursor is the cell of the offset past
      the five columns and the label. */
  lemma RenderCursor(prompt: TextPrompt, area: Rect, s: TextState)
    requires area.width >= 1 && area.height >= 1
    requires 5 + |prompt.message| + s.position < area.Area()
    ensures Render(prompt, area, s).state.cursor.0
      == area.x + CellOf(5 + |prompt.message| + s.position, area.width, area.height).0
    ensures Render(prompt, area, s).state.cursor.1
      == area.y + CellOf(5 + |prompt.message| + s.position, area.width, area.height).1
  {
    RenderedCursor(prompt, area, s);
  }

  /** The rendered cursor is the cell of the edit offset moved past five
      columns and the label, whatever the status and the render style. */
  lemma RenderedCursor(prompt: TextPrompt, area: Rect, s: TextState)
    requires area.width >= 1 && area.height >= 1
    ensures Render(prompt, area, s).state.cursor == CursorAt(s.position, 5 + |prompt.message|, area)
  {
  }

  /** With the value shown as typed, the line's cell past the five columns,
      the label and `position` characters holds the value's character there. */
  lemma PromptValueCell(prompt: TextPrompt, s: TextState)
    requires prompt.renderStyle == Default
    requires s.position < |s.value|
    ensures 5 + |prompt.message| + s.position < LineWidth(PromptLine(prompt, s))
    ensures Cells(PromptLine(prompt, s).spans)[5 + |prompt.message| + s.position] == Cell(s.value[s.position], Plain)
  {
    LastSpanCells(PromptLine(prompt, s).spans, s.position);
  }

  /** The cells at the end of a prompt line are those of its value span. */
  lemma LastSpanCells(spans: seq<Span>, k: nat)
    requires |spans| == 5
    requires k < |spans[4].content|
    ensures |spans[4].content| <= Width(spans) == |Cells(spans)|
    ensures Width(spans) - |spans[4].content| + k < |Cells(spans)|
    ensures Cells(spans)[Width(spans) - |spans[4].content| + k] == Cell(spans[4].content[k], spans[4].style)
  {
    assert spans == spans[..4] + [spans[4]];
    CellsAppend(spans[..4], [spans[4]]);
    assert Cells([spans[4]]) == SpanCells(spans[4]) by {
      assert [spans[4]][1..] == [];
    }
  }

  /** A masked value shows only its length and an invisible one not even
      that: states differing in the value alone render identically. */
  lemma RenderHidesValue(prompt: TextPrompt, area: Rect, s: TextState, value: string)
    requires area.width >= 1 && area.height >= 1
    requires prompt.renderStyle == Invisible || (prompt.renderStyle == Password && |value| == |s.value|)
    ensures Render(prompt, area, s.(value := value)).lines == Render(prompt, area, s).lines
    ensures Render(prompt, area, s.(value := value)).state.cursor == Render(prompt, area, s).state.cursor
  {
    var t := s.(value := value);
    assert RenderValue(prompt.renderStyle, t) == RenderValue(prompt.renderStyle, s);
    SameLineSameRender(prompt, area, s, t);
  }

  /** Render reads the state only through the prompt line and the edit
      offset. */
  lemma SameLineSameRender(prompt: TextPrompt, area: Rect, s: TextState, t: TextState)
    requires area.width >= 1 && area.height >= 1
    requires RenderValue(prompt.renderStyle, s) == RenderValue(prompt.renderStyle, t)
    requires s.status == t.status && s.position == t.position
    ensures Render(prompt, area, t).lines == Render(prompt, area, s).lines
    ensures Render(prompt, area, t).state.cursor == Render(prompt, area, s).state.cursor
  {
    assert PromptLine(prompt, t) == PromptLine(prompt, s);
    assert PrefixWidth(prompt, t) == PrefixWidth(prompt, s);
  }

  /** Draws the prompt: renders it, and moves the terminal cursor to the
      computed cell only when the prompt has focus. */
  function Draw(prompt: TextPrompt, area: Rect, s: TextState): (d: Drawn)
    requires area.width >= 1 && area.height >= 1
    ensures d.frameCursor.Some? <==> s.focus.IsFocused()
    ensures d.frameCursor.Some? ==> d.frameCursor.value == d.rendered.state.cursor
    ensures d.rendered.state.(cursor := s.cursor) == s
  {
    var r := Render(prompt, area, s);
    Drawn(r, if r.state.focus.IsFocused() then Some(r.state.cursor) else None)
  }

  /** A focused prompt puts the terminal cursor five columns plus the label
      past the edit offset, laid out over the area. */
  lemma DrawnCursor(prompt: TextPrompt, area: Rect, s: TextState)
    requires area.width >= 1 && area.height >= 1
    requires s.focus.IsFocused()
    ensures Draw(prompt, area, s).frameCursor == Some(CursorAt(s.position, 5 + |prompt.message|, area))
  {
  }

  /** A prompt line that fits the area's width is drawn as it is, on one line. */
  lemma RenderFits(prompt: TextPrompt, area: Rect, s: TextState)
    requires area.width >= 1 && area.height >= 1
    requires 5 + |prompt.message| + |RenderValue(prompt.renderStyle, s)| <= area.width
    ensures Render(prompt, area, s).lines == [PromptLine(prompt, s)]
  {
  }

  /** The text of a prompt line: glyph, space, label, separator, shown value. */
  lemma PromptLineContent(prompt: TextPrompt, s: TextState)
    ensures Content(PromptLine(prompt, s).spans)
      == s.status.Symbol().content + " " + prompt.message + Separator + RenderValue(prompt.renderStyle, s)
  {
    var line := PromptLine(prompt, s);
    FiveSpansContent(line.spans[0], line.spans[1], line.spans[2], line.spans[3], line.spans[4]);
    assert line.spans == [line.spans[0], line.spans[1], line.spans[2], line.spans[3], line.spans[4]];
  }

  /** The state the drawing tests start from: focused, holding `value`,
      with the edit offset at `position`. */
  function Typed(value: string, position: nat): (s: TextState)
    ensures s.value == value && s.position == position && s.focus.IsFocused() && s.status == Pending
  {
    WithFocus(WithValue(New(), value), Focused).(position := position)
  }

  lemma HelloWorldText(position: nat)
    ensures Content(PromptLine(TextPrompt("prompt", Default), Typed("hello world", position)).spans)
      == "? prompt › hello world"
  {
    var s := Typed("hello world", position);
    PromptLineContent(TextPrompt("prompt", Default), s);
    assert s.status.Symbol().content == "?";
  }

  /** "? prompt › hello world" on a 17 by 2 area: "? prompt › hello " on
      the first line and "world" on the second. */
  lemma HelloWorldWraps(position: nat)
    ensures var r := Render(TextPrompt("prompt", Default), Rect(0, 0, 17, 2), Typed("hello world", position));
      && |r.lines| == 2
      && Content(r.lines[0].spans) == "? prompt › hello "
      && Content(r.lines[1].spans) == "world"
  {
    var prompt := TextPrompt("prompt", Default);
    var s := Typed("hello world", position);
    var line := PromptLine(prompt, s);
    HelloWorldText(position);
    var text := Content(line.spans);
    WrapCount(line, 17);
    WrapRowText(line, 17, 0);
    WrapRowText(line, 17, 1);
    assert RowsWidth(1, 17) == 17;
    assert text[0..17] == "? prompt › hello ";
    assert text[17..22] == "world";
  }

  /** The drawing tests on a 17 by 2 terminal, prompt "prompt": the cursor
      cell for several offsets into "hello" and into "hello world".  The
      same offsets give the same cells whatever the value, and offsets past
      the value still advance the cursor, up to the last cell. */
  lemma DrawPositions()
    ensures forall v: string, p: nat | p in {0, 2, 3, 4, 5} ::
      Draw(TextPrompt("prompt", Default), Rect(0, 0, 17, 2), Typed(v, p)).frameCursor == Some((11 + p, 0))
    ensures forall v: string, p: nat | p in {6, 7, 10, 12, 13} ::
      Draw(TextPrompt("prompt", Default), Rect(0, 0, 17, 2), Typed(v, p)).frameCursor == Some((p - 6, 1))
    ensures forall v: string, p: nat | p >= 22 ::
      Draw(TextPrompt("prompt", Default), Rect(0, 0, 17, 2), Typed(v, p)).frameCursor == Some((16, 1))
  {
    forall v: string, p: nat | p <= 13
      ensures Draw(TextPrompt("prompt", Default), Rect(0, 0, 17, 2), Typed(v, p)).frameCursor
        == Some(if p < 6 then (11 + p, 0) else (p - 6, 1))
    {
      DrawWithinValue(v, p);
    }
    forall v: string, p: nat | p >= 22
      ensures Draw(TextPrompt("prompt", Default), Rect(0, 0, 17, 2), Typed(v, p)).frameCursor == Some((16, 1))
    {
      DrawClamped(v, p);
    }
  }

  /** One offset of the first two groups above: the first six offsets share
      the first row with the eleven-column prefix, the rest wrap to the second. */
  lemma DrawWithinValue(v: string, p: nat)
    requires p <= 13
    ensures Draw(TextPrompt("prompt", Default), Rect(0, 0, 17, 2), Typed(v, p)).frameCursor
      == Some(if p < 6 then (11 + p, 0) else (p - 6, 1))
  {
    DrawnCursor(TextPrompt("prompt", Default), Rect(0, 0, 17, 2), Typed(v, p));
    if p < 6 {
      CellOfUnique(p + 11, 17, 2, p + 11, 0);
    } else {
      CellOfUnique(p + 11, 17, 2, p - 6, 1);
    }
  }

  /** One offset of the last group above: the cursor is clamped to the last cell. */
  lemma DrawClamped(v: string, p: nat)
    requires p >= 22
    ensures Draw(TextPrompt("prompt", Default), Rect(0, 0, 17, 2), Typed(v, p)).frameCursor == Some((16, 1))
  {
    DrawnCursor(TextPrompt("prompt", Default), Rect(0, 0, 17, 2), Typed(v, p));
    CursorClamps(p, 11, Rect(0, 0, 17, 2));
  }

  /** The cursor follows the edit offset even past the rendered text: with
      "hello" on a 17 by 2 area the text takes one line, yet offset 6 puts
      the cursor at the start of the second. */
  lemma CursorPastValue()
    ensures var r := Render(TextPrompt("prompt", Default), Rect(0, 0, 17, 2), Typed("hello", 6));
      |r.lines| == 1 && r.state.cursor == (0, 1)
  {
    var prompt := TextPrompt("prompt", Default);
    var s := Typed("hello", 6);
    RenderFits(prompt, Rect(0, 0, 17, 2), s);
    CellOfUnique(17, 17, 2, 0, 1);
  }

  /** An unfocused prompt still computes its cursor cell but does not move
      the terminal cursor: "hello" after the label "prompt" on a 17 by 2
      area puts it at column 11. */
  lemma UnfocusedDraw()
    ensures var d := Draw(TextPrompt("prompt", Default), Rect(0, 0, 17, 2), WithValue(New(), "hello"));
      d.frameCursor == None && d.rendered.state.cursor == (11, 0)
  {
    CellOfUnique(11, 17, 2, 11, 0);
  }

  /** The label "🔍" is one character but two columns wide, so its prefix
      takes seven columns; on an empty value in an 11 by 1 area the cursor
      sits at column 7. */
  lemma EmojiLabelCursor()
    ensures CursorAt(New().position, 7, Rect(0, 0, 11, 1)) == (7, 0)
  {
    CellOfUnique(7, 11, 1, 7, 0);
  }
}
