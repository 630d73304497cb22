/** Screen geometry of the prompt cursor: an offset into the logical line
    is laid out row by row over an area, the area's width being the row
    length. */
module Cursor {
  import opened Base

  /** The number of cells the cursor lies past the area's first cell: the
      edit offset moved past the prefix, clamped to the area's last cell. */
  function Offset(position: nat, prefix: nat, capacity: nat): (offset: nat)
    requires capacity >= 1
    ensures offset < capacity
    ensures offset == position + prefix || (offset == capacity - 1 && position + prefix >= capacity)
  {
    Min(position + prefix, capacity - 1)
  }

  /** Column and row of an offset in rows `width` cells long: the unique
      pair that reads back as the offset. */
  function CellOf(offset: nat, width: nat, height: nat): (c: (nat, nat))
    requires width >= 1 && offset < width * height
    ensures c.0 < width && c.1 < height
    ensures c.1 * width + c.0 == offset
  {
    CellBounds(offset, width, height);
    (offset % width, offset / width)
  }

  /** Maps an edit offset to a screen cell: the offset is moved past the
      prefix, clamped to the last cell of the area, and read as column and
      row of rows `area.width` cells long. */
  function CursorAt(position: nat, prefix: nat, area: Rect): (cursor: (nat, nat))
    requires area.width >= 1 && area.height >= 1
    ensures area.x <= cursor.0 < area.x + area.width
    ensures area.y <= cursor.1 < area.y + area.height
  {
    AreaPositive(area);
    var c := CellOf(Offset(position, prefix, area.Area()), area.width, area.height);
    (area.x + c.0, area.y + c.1)
  }

  lemma AreaPositive(area: Rect)
    requires area.width >= 1 && area.height >= 1
    ensures area.Area() >= 1
  {
    MulMonotone(1, area.height, area.width);
  }

  /** Euclidean division by a positive width. */
  lemma DivMod(n: nat, w: nat)
    requires w >= 1
    ensures n == (n / w) * w + n % w
    ensures 0 <= n % w < w
  {
  }

  /** An offset inside a `width * height` area falls on one of its rows. */
  lemma CellBounds(offset: nat, width: nat, height: nat)
    requires width >= 1 && offset < width * height
    ensures offset / width < height
    ensures offset % width < width
    ensures (offset / width) * width + offset % width == offset
  {
    DivMod(offset, width);
    MulMonotone(height, offset / width, width);
  }

  /** Column and row are determined by the offset: any pair that reads
      back as the offset is the one `CellOf` gives. */
  lemma CellOfUnique(offset: nat, width: nat, height: nat, col: nat, row: nat)
    requires width >= 1 && offset < width * height
    requires col < width && row * width + col == offset
    ensures CellOf(offset, width, height) == (col, row)
  {
    var c := CellOf(offset, width, height);
    MulSucc(c.1, width);
    MulSucc(row, width);
    MulMonotone(c.1 + 1, row, width);
    MulMonotone(row + 1, c.1, width);
  }

  /** Inside the area the mapping is exact: reading the cell back as
      `row * width + column` gives the offset past the prefix. */
  lemma CursorInverse(position: nat, prefix: nat, area: Rect)
    requires area.width >= 1 && area.height >= 1
    requires position + prefix < area.Area()
    ensures var c := CursorAt(position, prefix, area);
      (c.1 - area.y) * area.width + (c.0 - area.x) == position + prefix
  {
  }

  /** Past the area's capacity the cursor stays on the last cell. */
  lemma CursorClamps(position: nat, prefix: nat, area: Rect)
    requires area.width >= 1 && area.height >= 1
    requires position + prefix >= area.Area() - 1
    ensures CursorAt(position, prefix, area) == (area.x + area.width - 1, area.y + area.height - 1)
  {
    AreaPositive(area);
    var h := area.height - 1;
    MulSucc(h, area.width);
    CellOfUnique(area.Area() - 1, area.width, area.height, area.width - 1, h);
  }

  /** Reading order of screen cells: row first, then column. */
  predicate NotAfter(a: (nat, nat), b: (nat, nat))
  {
    a.1 < b.1 || (a.1 == b.1 && a.0 <= b.0)
  }

  /** A later offset never lies on an earlier cell. */
  lemma CellOfMonotone(a: nat, b: nat, width: nat, height: nat)
    requires width >= 1 && a <= b < width * height
    ensures NotAfter(CellOf(a, width, height), CellOf(b, width, height))
  {
    var ca := CellOf(a, width, height);
    var cb := CellOf(b, width, height);
    MulSucc(cb.1, width);
    MulMonotone(cb.1 + 1, ca.1, width);
  }

  /** Moving the edit offset forward never moves the cursor backward. */
  lemma CursorMonotone(p: nat, q: nat, prefix: nat, area: Rect)
    requires area.width >= 1 && area.height >= 1
    requires p <= q
    ensures NotAfter(CursorAt(p, prefix, area), CursorAt(q, prefix, area))
  {
    AreaPositive(area);
    CellOfMonotone(Offset(p, prefix, area.Area()), Offset(q, prefix, area.Area()), area.width, area.height);
  }
}
