/** The character wrap engine of the text prompt: a styled line is cut into
    lines of at most a given number of columns, splitting a span where the
    cut falls inside it and giving both pieces the span's style. */
module Wrapping {
  import opened Base
  import opened Text

  /** Cuts a span after `mid` characters.  The original panics when `mid`
      is past the end of the content. */
  function SpanSplitAt(span: Span, mid: nat): (halves: (Span, Span))
    requires mid <= |span.content|
    ensures halves.0.content + halves.1.content == span.content
    ensures |halves.0.content| == mid
    ensures halves.0.style == span.style && halves.1.style == span.style
  {
    (Span(span.content[..mid], span.style), Span(span.content[mid..], span.style))
  }

  /** Both pieces of a cut span show, cell for cell, the two sides of the cut. */
  lemma SpanSplitCells(span: Span, mid: nat)
    requires mid <= |span.content|
    ensures SpanCells(SpanSplitAt(span, mid).0) == SpanCells(span)[..mid]
    ensures SpanCells(SpanSplitAt(span, mid).1) == SpanCells(span)[mid..]
  {
  }

  lemma CellsCons(span: Span, rest: seq<Span>)
    ensures Cells([span] + rest) == SpanCells(span) + Cells(rest)
    ensures Width([span] + rest) == SpanWidth(span) + Width(rest)
  {
    assert ([span] + rest)[0] == span;
    assert ([span] + rest)[1..] == rest;
  }

  /** The loop of `line_split_at` over the spans still to place, `filled`
      being the width already placed in the first half.  A span that fits
      goes to the first half, the span the cut falls inside is split, and
      every later span goes to the second half; a span of width 0 met when
      the first half is exactly full still fits, so it goes to the first. */
  function SplitSpans(spans: seq<Span>, mid: nat, filled: nat): (halves: (seq<Span>, seq<Span>))
    requires filled <= mid
    ensures Width(halves.0) == Min(mid - filled, Width(spans))
    ensures Width(halves.1) == Width(spans) - Width(halves.0)
    ensures |halves.0| + |halves.1| <= |spans| + 1
    ensures filled == mid ==> |halves.0| + |halves.1| == |spans|
    ensures Width(spans) <= mid - filled ==> halves == (spans, [])
    decreases |spans|
  {
    if spans == [] then ([], [])
    else
      var span := spans[0];
      var rest := spans[1..];
      CellsCons(span, rest);
      assert spans == [span] + rest;
      if filled + SpanWidth(span) <= mid then
        var r := SplitSpans(rest, mid, filled + SpanWidth(span));
        CellsCons(span, r.0);
        ([span] + r.0, r.1)
      else if filled < mid then
        var pieces := SpanSplitAt(span, mid - filled);
        var r := SplitSpans(rest, mid, mid);
        CellsCons(pieces.0, r.0);
        CellsCons(pieces.1, r.1);
        ([pieces.0] + r.0, [pieces.1] + r.1)
      else
        var r := SplitSpans(rest, mid, filled);
        CellsCons(span, r.1);
        (r.0, [span] + r.1)
  }

  lemma SliceAfter<T>(a: seq<T>, b: seq<T>, j: nat)
    requires j <= |b|
    ensures (a + b)[..|a| + j] == a + b[..j]
    ensures (a + b)[|a| + j..] == b[j..]
  {
  }

  lemma SliceWithin<T>(a: seq<T>, b: seq<T>, j: nat)
    requires j <= |a|
    ensures (a + b)[..j] == a[..j]
    ensures (a + b)[j..] == a[j..] + b
  {
  }

  /** The halves of a split hold the cells before and after the cut. */
  predicate SplitKeepsCells(spans: seq<Span>, mid: nat, filled: nat)
    requires filled <= mid
  {
    var k := Min(mid - filled, Width(spans));
    && Cells(SplitSpans(spans, mid, filled).0) == Cells(spans)[..k]
    && Cells(SplitSpans(spans, mid, filled).1) == Cells(spans)[k..]
  }

  /** The halves hold exactly the cells before and after the cut: content
      and per-character style are kept, in order. */
  lemma {:induction false} SplitSpansCells(spans: seq<Span>, mid: nat, filled: nat)
    requires filled <= mid
    ensures var k := Min(mid - filled, Width(spans));
      && Cells(SplitSpans(spans, mid, filled).0) == Cells(spans)[..k]
      && Cells(SplitSpans(spans, mid, filled).1) == Cells(spans)[k..]
    decreases |spans|
  {
    if spans != [] {
      if filled + SpanWidth(spans[0]) <= mid {
        SplitSpansCells(spans[1..], mid, filled + SpanWidth(spans[0]));
        WholeSpanCells(spans, mid, filled);
      } else if filled < mid {
        SplitSpansCells(spans[1..], mid, mid);
        CutSpanCells(spans, mid, filled);
      } else {
        SplitSpansCells(spans[1..], mid, filled);
        LaterSpanCells(spans, mid, filled);
      }
    }
    assert SplitKeepsCells(spans, mid, filled);
  }

  /** A first span that fits whole goes to the first half. */
  lemma WholeSpanCells(spans: seq<Span>, mid: nat, filled: nat)
    requires spans != [] && filled + SpanWidth(spans[0]) <= mid
    requires SplitKeepsCells(spans[1..], mid, filled + SpanWidth(spans[0]))
    ensures SplitKeepsCells(spans, mid, filled)
  {
    var span := spans[0];
    var rest := spans[1..];
    assert Cells(spans) == SpanCells(span) + Cells(rest);
    var filled' := filled + SpanWidth(span);
    var r := SplitSpans(rest, mid, filled');
    assert SplitSpans(spans, mid, filled) == ([span] + r.0, r.1);
    CellsCons(span, r.0);
    SliceAfter(SpanCells(span), Cells(rest), Min(mid - filled', Width(rest)));
  }

  /** A first span that straddles the cut is split between the halves. */
  lemma CutSpanCells(spans: seq<Span>, mid: nat, filled: nat)
    requires spans != [] && filled < mid < filled + SpanWidth(spans[0])
    requires SplitKeepsCells(spans[1..], mid, mid)
    ensures SplitKeepsCells(spans, mid, filled)
  {
    var span := spans[0];
    var rest := spans[1..];
    assert Cells(spans) == SpanCells(span) + Cells(rest);
    var pieces := SpanSplitAt(span, mid - filled);
    SpanSplitCells(span, mid - filled);
    var r := SplitSpans(rest, mid, mid);
    assert SplitSpans(spans, mid, filled) == ([pieces.0] + r.0, [pieces.1] + r.1);
    CellsCons(pieces.0, r.0);
    CellsCons(pieces.1, r.1);
    SliceWithin(SpanCells(span), Cells(rest), mid - filled);
  }

  /** Once the first half is full, every further span goes to the second. */
  lemma LaterSpanCells(spans: seq<Span>, mid: nat, filled: nat)
    requires spans != [] && filled == mid < filled + SpanWidth(spans[0])
    requires SplitKeepsCells(spans[1..], mid, filled)
    ensures SplitKeepsCells(spans, mid, filled)
  {
    var span := spans[0];
    var rest := spans[1..];
    assert Cells(spans) == SpanCells(span) + Cells(rest);
    var r := SplitSpans(rest, mid, filled);
    assert SplitSpans(spans, mid, filled) == (r.0, [span] + r.1);
    CellsCons(span, r.1);
  }

  /** Splits a line at column `mid`; both halves keep the line's alignment. */
  function LineSplitAt(line: Line, mid: nat): (halves: (Line, Line))
    ensures halves.0.alignment == line.alignment && halves.1.alignment == line.alignment
    ensures LineWidth(halves.0) == Min(mid, LineWidth(line))
    ensures LineWidth(halves.1) == LineWidth(line) - LineWidth(halves.0)
    ensures |halves.0.spans| + |halves.1.spans| <= |line.spans| + 1
    ensures LineWidth(line) <= mid ==> halves.0.spans == line.spans && halves.1.spans == []
  {
    var halves := SplitSpans(line.spans, mid, 0);
    (Line(halves.0, line.alignment), Line(halves.1, line.alignment))
  }

  /** The first half holds the line's first `mid` cells and the second half
      the rest; at most one span is cut in two. */
  lemma LineSplitCells(line: Line, mid: nat)
    ensures var k := Min(mid, LineWidth(line));
      && Cells(LineSplitAt(line, mid).0.spans) == Cells(line.spans)[..k]
      && Cells(LineSplitAt(line, mid).1.spans) == Cells(line.spans)[k..]
  {
    SplitSpansCells(line.spans, mid, 0);
  }

  lemma LinesCellsCons(line: Line, rest: seq<Line>)
    ensures LinesCells([line] + rest) == Cells(line.spans) + LinesCells(rest)
  {
    assert ([line] + rest)[0] == line;
    assert ([line] + rest)[1..] == rest;
  }

  /** `lines` lay `cells` out in rows of `width` columns: each line holds
      the next `width` cells (the last line what remains), and there are no
      lines once the cells run out. */
  ghost predicate Rows(lines: seq<Line>, cells: seq<Cell>, width: nat)
    decreases |lines|
  {
    if lines == [] then cells == []
    else
      && 0 < |cells|
      && Cells(lines[0].spans) == cells[..Min(width, |cells|)]
      && Rows(lines[1..], cells[Min(width, |cells|)..], width)
  }

  /** Every line is non-empty, at most `width` wide and carries `alignment`;
      every line but the last is exactly `width` wide. */
  predicate Fitted(lines: seq<Line>, width: nat, alignment: Alignment)
  {
    && (forall i :: 0 <= i < |lines| ==> 0 < LineWidth(lines[i]) <= width)
    && (forall i :: 0 <= i < |lines| - 1 ==> LineWidth(lines[i]) == width)
    && (forall i :: 0 <= i < |lines| ==> lines[i].alignment == alignment)
  }

  /** A full first line in front of fitted lines. */
  lemma FittedCons(first: Line, rest: seq<Line>, width: nat, alignment: Alignment)
    requires LineWidth(first) == width >= 1 && first.alignment == alignment
    requires Fitted(rest, width, alignment)
    ensures Fitted([first] + rest, width, alignment)
  {
    var lines := [first] + rest;
    forall i | 0 <= i < |lines|
      ensures 0 < LineWidth(lines[i]) <= width && lines[i].alignment == alignment
    {
      if i > 0 {
        assert lines[i] == rest[i - 1];
      }
    }
  }

  /** Wraps a line into lines of at most `width` columns.  A remainder
      wider than `width` is cut at `width`; a non-empty one that fits is
      emitted whole; an empty one ends the sequence. */
  function Wrap(line: Line, width: nat): (lines: seq<Line>)
    requires width >= 1
    ensures Fitted(lines, width, line.alignment)
    ensures lines == [] <==> LineWidth(line) == 0
    ensures 0 < LineWidth(line) <= width ==> lines == [line]
    ensures Rows(lines, Cells(line.spans), width)
    decreases LineWidth(line)
  {
    if LineWidth(line) > width then
      var halves := LineSplitAt(line, width);
      LineSplitCells(line, width);
      var rest := Wrap(halves.1, width);
      RowsCons(halves.0, rest, Cells(line.spans), width);
      FittedCons(halves.0, rest, width, line.alignment);
      [halves.0] + rest
    else if LineWidth(line) > 0 then
      assert [line][1..] == [];
      [line]
    else
      []
  }

  /** A first row of `width` cells followed by a layout of the rest. */
  lemma RowsCons(first: Line, rest: seq<Line>, cells: seq<Cell>, width: nat)
    requires width < |cells|
    requires Cells(first.spans) == cells[..width]
    requires Rows(rest, cells[width..], width)
    ensures Rows([first] + rest, cells, width)
  {
    assert ([first] + rest)[1..] == rest;
  }

  /** Laid end to end, the wrapped lines give back the input's cells: no
      character is lost, repeated or restyled. */
  lemma WrapConcat(line: Line, width: nat)
    requires width >= 1
    ensures LinesCells(Wrap(line, width)) == Cells(line.spans)
  {
    var lines := Wrap(line, width);
    WrapCount(line, width);
    RowsWidthIsProduct(|lines|, width);
    RowsTake(lines, Cells(line.spans), width, |lines|);
    assert lines[..|lines|] == lines;
  }

  /** One step of the wrap: a line wider than `width` yields its first
      `width` columns, then the wrap of the rest. */
  lemma WrapStep(line: Line, width: nat)
    requires width >= 1 && LineWidth(line) > width
    ensures Wrap(line, width) == [LineSplitAt(line, width).0] + Wrap(LineSplitAt(line, width).1, width)
  {
  }

  /** The number of lines is the line's width divided by `width`, rounded up. */
  lemma {:induction false} WrapCount(line: Line, width: nat)
    requires width >= 1
    ensures var n := |Wrap(line, width)|;
      (n - 1) * width < LineWidth(line) <= n * width || (n == 0 && LineWidth(line) == 0)
    decreases LineWidth(line)
  {
    if LineWidth(line) > width {
      var second := LineSplitAt(line, width).1;
      WrapStep(line, width);
      WrapCount(second, width);
      var m := |Wrap(second, width)|;
      MulSucc(m - 1, width);
      MulSucc(m, width);
    }
  }

  lemma SliceShift<T>(all: seq<T>, d: nat, a: nat, b: nat)
    requires d <= |all| && a <= b <= |all| - d
    ensures all[d..][a..b] == all[d + a .. d + b]
  {
  }

  /** The number of columns in `n` full rows of `width` columns, counted
      row by row so that proofs about it stay linear. */
  function RowsWidth(n: nat, width: nat): (w: nat)
  {
    if n == 0 then 0 else RowsWidth(n - 1, width) + width
  }

  lemma {:induction false} RowsWidthIsProduct(n: nat, width: nat)
    ensures RowsWidth(n, width) == n * width
  {
    if n > 0 {
      RowsWidthIsProduct(n - 1, width);
      MulSucc(n - 1, width);
    }
  }

  /** A run of cells taken from what follows the first `width` columns,
      in the coordinates of the whole sequence. */
  lemma RowFromRest<T>(all: seq<T>, rest: seq<T>, width: nat, j: nat, row: seq<T>)
    requires width <= |all| && rest == all[width..] && j < |rest|
    requires row == rest[j .. Min(j + width, |rest|)]
    ensures row == all[width + j .. Min(width + j + width, |all|)]
  {
    SliceShift(all, width, j, Min(j + width, |all| - width));
  }

  /** Row `i` of a row layout holds the cells from column `i * width` on,
      up to `width` of them. */
  lemma {:induction false} RowAt(lines: seq<Line>, cells: seq<Cell>, width: nat, i: nat)
    requires width >= 1 && Rows(lines, cells, width)
    requires i < |lines|
    ensures RowsWidth(i, width) < |cells|
    ensures Cells(lines[i].spans) == cells[RowsWidth(i, width) .. Min(RowsWidth(i, width) + width, |cells|)]
    decreases i
  {
    if i > 0 {
      var k := i - 1;
      RowsRest(lines, cells, width);
      RowAt(lines[1..], cells[width..], width, k);
      RowStep(lines, cells, width, k);
    }
    assert RowHolds(lines, cells, width, i);
  }

  /** Row `i` holds the cells from `RowsWidth(i, width)` on, up to `width`
      of them. */
  predicate RowHolds(lines: seq<Line>, cells: seq<Cell>, width: nat, i: nat)
  {
    && i < |lines|
    && RowsWidth(i, width) < |cells|
    && Cells(lines[i].spans) == cells[RowsWidth(i, width) .. Min(RowsWidth(i, width) + width, |cells|)]
  }

  /** A row of the layout after the first row is a row of the whole. */
  lemma RowStep(lines: seq<Line>, cells: seq<Cell>, width: nat, k: nat)
    requires width < |cells| && |lines| >= 1
    requires RowHolds(lines[1..], cells[width..], width, k)
    ensures RowHolds(lines, cells, width, k + 1)
  {
    var rest := cells[width..];
    RowFromRest(cells, rest, width, RowsWidth(k, width), Cells(lines[1..][k].spans));
    assert lines[1..][k] == lines[k + 1];
  }

  /** Past its first row, a row layout of two or more rows lays out the
      remaining lines over the cells after the first `width`. */
  lemma RowsRest(lines: seq<Line>, cells: seq<Cell>, width: nat)
    requires width >= 1 && Rows(lines, cells, width) && |lines| >= 2
    ensures width < |cells|
    ensures Rows(lines[1..], cells[width..], width)
  {
  }

  /** The first `n` rows of a row layout hold its first `n * width` cells
      (all of them when there are fewer). */
  lemma {:induction false} RowsTake(lines: seq<Line>, cells: seq<Cell>, width: nat, n: nat)
    requires width >= 1 && Rows(lines, cells, width)
    ensures LinesCells(lines[..Min(n, |lines|)]) == cells[..Min(RowsWidth(n, width), |cells|)]
    decreases n
  {
    if n == 0 || lines == [] {
      assert lines[..Min(n, |lines|)] == [];
    } else {
      var m := Min(width, |cells|);
      var rest := cells[m..];
      RowsTake(lines[1..], rest, width, n - 1);
      var kept := lines[1..][..Min(n - 1, |lines| - 1)];
      assert lines[..Min(n, |lines|)] == [lines[0]] + kept;
      LinesCellsCons(lines[0], kept);
      RowsWidthAtLeast(n, width);
      TakeAfter(cells, m, Min(RowsWidth(n - 1, width), |rest|));
    }
  }

  lemma TakeAfter<T>(s: seq<T>, m: nat, j: nat)
    requires m <= |s| && j <= |s| - m
    ensures s[..m] + s[m..][..j] == s[..m + j]
  {
  }

  /** Line `i` of the wrapped output holds the input's cells from column
      `i * width` on, up to `width` of them. */
  lemma WrapRow(line: Line, width: nat, i: nat)
    requires width >= 1
    requires i < |Wrap(line, width)|
    ensures RowsWidth(i, width) < LineWidth(line)
    ensures Cells(Wrap(line, width)[i].spans)
      == Cells(line.spans)[RowsWidth(i, width) .. Min(RowsWidth(i, width) + width, LineWidth(line))]
  {
    RowAt(Wrap(line, width), Cells(line.spans), width, i);
  }

  /** Keeping the first `n` wrapped lines keeps the input's first
      `n * width` cells (all of them when the input is shorter). */
  lemma WrapTake(line: Line, width: nat, n: nat)
    requires width >= 1
    ensures var lines := Wrap(line, width);
      LinesCells(lines[..Min(n, |lines|)]) == Cells(line.spans)[..Min(RowsWidth(n, width), LineWidth(line))]
  {
    RowsTake(Wrap(line, width), Cells(line.spans), width, n);
  }

  lemma {:induction false} RowsWidthAtLeast(n: nat, width: nat)
    requires n >= 1
    ensures RowsWidth(n, width) >= width
  {
    if n > 1 {
      RowsWidthAtLeast(n - 1, width);
    }
  }

  /** The text of row `i` of a row layout is the matching slice of the
      spans' text. */
  lemma {:induction false} RowText(lines: seq<Line>, spans: seq<Span>, width: nat, i: nat)
    requires width >= 1 && Rows(lines, Cells(spans), width)
    requires i < |lines|
    ensures RowsWidth(i, width) < Width(spans)
    ensures Content(lines[i].spans)
      == Content(spans)[RowsWidth(i, width) .. Min(RowsWidth(i, width) + width, Width(spans))]
  {
    RowAt(lines, Cells(spans), width, i);
    ContentSlice(lines[i].spans, spans, RowsWidth(i, width), Min(RowsWidth(i, width) + width, Width(spans)));
  }

  /** The text of wrapped row `i` is the slice of the line's text from
      column `i * width`, at most `width` characters long. */
  lemma WrapRowText(line: Line, width: nat, i: nat)
    requires width >= 1
    requires i < |Wrap(line, width)|
    ensures RowsWidth(i, width) < LineWidth(line)
    ensures Content(Wrap(line, width)[i].spans)
      == Content(line.spans)[RowsWidth(i, width) .. Min(RowsWidth(i, width) + width, LineWidth(line))]
  {
    RowText(Wrap(line, width), line.spans, width, i);
  }

  /** Cell `col` of row `row` of a row layout is cell `row * width + col`
      of the whole. */
  lemma {:induction false} RowCell(lines: seq<Line>, cells: seq<Cell>, width: nat, row: nat, col: nat)
    requires width >= 1 && Rows(lines, cells, width)
    requires row < |lines| && col < width && row * width + col < |cells|
    ensures col < |Cells(lines[row].spans)|
    ensures Cells(lines[row].spans)[col] == cells[row * width + col]
  {
    RowsWidthIsProduct(row, width);
    RowAt(lines, cells, width, row);
    SliceAt(Cells(lines[row].spans), cells, row * width, width, col);
  }

  lemma SliceAt<T>(part: seq<T>, all: seq<T>, start: nat, width: nat, k: nat)
    requires k < width && start + k < |all|
    requires part == all[start .. Min(start + width, |all|)]
    ensures k < |part| && part[k] == all[start + k]
  {
  }

  /** Column `col` of wrapped row `row` shows the line's cell
      `row * width + col`; that row exists whenever the cell does. */
  lemma WrapCell(line: Line, width: nat, row: nat, col: nat)
    requires width >= 1 && col < width && row * width + col < LineWidth(line)
    ensures row < |Wrap(line, width)|
    ensures col < |Cells(Wrap(line, width)[row].spans)|
    ensures Cells(Wrap(line, width)[row].spans)[col] == Cells(line.spans)[row * width + col]
  {
    WrapCount(line, width);
    MulMonotone(|Wrap(line, width)|, row, width);
    RowCell(Wrap(line, width), Cells(line.spans), width, row, col);
  }

  /** A span of width 0 that follows the cut stays in the first half when
      the first half is already exactly full. */
  lemma EmptySpanAfterCut()
    ensures var line := Line([Span("ab", Plain), Span("cd", Plain), Span("", Bold)], Unset);
      LineSplitAt(line, 2) == (Line([Span("ab", Plain), Span("", Bold)], Unset), Line([Span("cd", Plain)], Unset))
  {
    var last := [Span("", Bold)];
    var tail := [Span("cd", Plain)] + last;
    var spans := [Span("ab", Plain)] + tail;
    assert spans[1..] == tail && tail[1..] == last && last[1..] == [];
    assert SplitSpans(last, 2, 2) == (last, []);
    assert [Span("cd", Plain)] + [] == [Span("cd", Plain)];
    assert SpanWidth(tail[0]) == 2;
    assert SplitSpans(tail, 2, 2) == (last, [Span("cd", Plain)]);
    assert SplitSpans(spans, 2, 0) == ([Span("ab", Plain)] + last, [Span("cd", Plain)]);
    assert spans == [Span("ab", Plain), Span("cd", Plain), Span("", Bold)];
    assert [Span("ab", Plain)] + last == [Span("ab", Plain), Span("", Bold)];
  }
}
