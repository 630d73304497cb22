/** The styled text that the prompts compose and wrap: spans (a piece of
    text in one style) and lines (an ordered sequence of spans).

    Every character is taken to be one byte long and one terminal column
    wide, so the display width of a span is the length of its content, and
    byte offsets, character offsets and column offsets coincide. */
module Text {

  /** The foreground colours the prompts use; `NoColor` is the absence of
      a foreground colour. */
  datatype Color = NoColor | Cyan | Red | Green

  /** A style is only ever copied by the wrap engine; these are the
      attributes the prompts set on their spans. */
  datatype Style = Style(fg: Color, bold: bool, dim: bool)

  const Plain: Style := Style(NoColor, false, false)
  const Bold: Style := Style(NoColor, true, false)
  const CyanDim: Style := Style(Cyan, false, true)

  datatype Span = Span(content: string, style: Style)

  /** Horizontal alignment of a line; `Unset` is the absent alignment. */
  datatype Alignment = Unset | Left | Center | Right

  datatype Line = Line(spans: seq<Span>, alignment: Alignment)

  /** One terminal cell: a character and the style it is drawn in.  The
      cells of a line say both what it reads and how each character looks. */
  datatype Cell = Cell(ch: char, style: Style)

  function SpanWidth(span: Span): nat {
    |span.content|
  }

  /** Sum of the widths of the spans. */
  function Width(spans: seq<Span>): nat {
    if spans == [] then 0 else SpanWidth(spans[0]) + Width(spans[1..])
  }

  function LineWidth(line: Line): nat {
    Width(line.spans)
  }

  /** The text of the spans, in order. */
  function Content(spans: seq<Span>): (text: string)
    ensures |text| == Width(spans)
  {
    if spans == [] then [] else spans[0].content + Content(spans[1..])
  }

  function SpanCells(span: Span): (cells: seq<Cell>)
    ensures |cells| == SpanWidth(span)
  {
    seq(|span.content|, i requires 0 <= i < |span.content| => Cell(span.content[i], span.style))
  }

  /** The cells the spans occupy, one per column. */
  function Cells(spans: seq<Span>): (cells: seq<Cell>)
    ensures |cells| == Width(spans)
  {
    if spans == [] then [] else SpanCells(spans[0]) + Cells(spans[1..])
  }

  /** The cells of several lines laid end to end. */
  function LinesCells(lines: seq<Line>): seq<Cell> {
    if lines == [] then [] else Cells(lines[0].spans) + LinesCells(lines[1..])
  }

  /** The characters of a run of cells. */
  function Chars(cells: seq<Cell>): (s: string)
    ensures |s| == |cells|
  {
    seq(|cells|, i requires 0 <= i < |cells| => cells[i].ch)
  }

  /** Cells distribute over concatenation of span sequences. */
  lemma {:induction false} CellsAppend(a: seq<Span>, b: seq<Span>)
    ensures Cells(a + b) == Cells(a) + Cells(b)
    decreases |a|
  {
    if a == [] {
      assert a + b == b;
    } else {
      assert (a + b)[0] == a[0];
      assert (a + b)[1..] == a[1..] + b;
      CellsAppend(a[1..], b);
    }
  }

  /** Lines' cells distribute over concatenation of line sequences. */
  lemma {:induction false} LinesCellsAppend(a: seq<Line>, b: seq<Line>)
    ensures LinesCells(a + b) == LinesCells(a) + LinesCells(b)
    decreases |a|
  {
    if a == [] {
      assert a + b == b;
    } else {
      assert (a + b)[0] == a[0];
      assert (a + b)[1..] == a[1..] + b;
      LinesCellsAppend(a[1..], b);
    }
  }

  /** The text of a span sequence is exactly the characters of its cells:
      the cells carry the content, and besides it the style of each column. */
  lemma {:induction false} ContentIsChars(spans: seq<Span>)
    ensures Content(spans) == Chars(Cells(spans))
    decreases |spans|
  {
    if spans != [] {
      ContentIsChars(spans[1..]);
      var head := SpanCells(spans[0]);
      var tail := Cells(spans[1..]);
      assert Chars(head + tail) == Chars(head) + Chars(tail);
      assert Chars(head) == spans[0].content;
    }
  }

  lemma CharsSlice(cells: seq<Cell>, i: nat, j: nat)
    requires i <= j <= |cells|
    ensures Chars(cells[i..j]) == Chars(cells)[i..j]
  {
  }

  /** Spans whose cells are a slice of other spans' cells carry the
      matching slice of their text. */
  lemma ContentSlice(spans: seq<Span>, all: seq<Span>, i: nat, j: nat)
    requires i <= j <= Width(all)
    requires Cells(spans) == Cells(all)[i..j]
    ensures Content(spans) == Content(all)[i..j]
  {
    ContentIsChars(spans);
    ContentIsChars(all);
    CharsSlice(Cells(all), i, j);
  }

  /** Width of five spans in a row. */
  lemma FiveSpansWidth(a: Span, b: Span, c: Span, d: Span, e: Span)
    ensures Width([a, b, c, d, e]) == SpanWidth(a) + SpanWidth(b) + SpanWidth(c) + SpanWidth(d) + SpanWidth(e)
  {
    var s4 := [e];
    assert s4[1..] == [];
    assert Width(s4) == SpanWidth(e);
    var s3 := [d] + s4;
    assert s3[1..] == s4;
    assert Width(s3) == SpanWidth(d) + Width(s4);
    var s2 := [c] + s3;
    assert s2[1..] == s3;
    assert Width(s2) == SpanWidth(c) + Width(s3);
    var s1 := [b] + s2;
    assert s1[1..] == s2;
    assert Width(s1) == SpanWidth(b) + Width(s2);
    var s0 := [a] + s1;
    assert s0[1..] == s1;
    assert s0 == [a, b, c, d, e];
  }

  /** Text of five spans in a row. */
  lemma FiveSpansContent(a: Span, b: Span, c: Span, d: Span, e: Span)
    ensures Content([a, b, c, d, e]) == a.content + b.content + c.content + d.content + e.content
  {
    var s4 := [e];
    assert s4[1..] == [];
    assert Content(s4) == e.content;
    var s3 := [d] + s4;
    assert s3[1..] == s4;
    assert Content(s3) == d.content + e.content;
    var s2 := [c] + s3;
    assert s2[1..] == s3;
    assert Content(s2) == c.content + (d.content + e.content);
    var s1 := [b] + s2;
    assert s1[1..] == s2;
    assert Content(s1) == b.content + (c.content + (d.content + e.content));
    var s0 := [a] + s1;
    assert s0[1..] == s1;
    assert s0 == [a, b, c, d, e];
  }
}
