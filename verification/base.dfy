/** Small shared vocabulary: an optional value, the rendering rectangle,
    the unsigned 16-bit range that terminal coordinates live in, and the
    two facts about products that the layout proofs use. */
module Base {

  /** Rust's `Option`, used for the terminal cursor a draw may set. */
  datatype Option<+T> = None | Some(value: T)

  /** The values a Rust `u16` can hold. */
  type U16 = x: nat | x < 0x1_0000

  function Min(a: nat, b: nat): nat {
    if a <= b then a else b
  }

  /** A rectangle of terminal cells: its top-left corner and its size.  The
      prompts receive the inner rectangle, after any enclosing block has
      taken its border. */
  datatype Rectangle = Rect(x: U16, y: U16, width: U16, height: U16)
  {
    /** Number of cells in the rectangle. */
    function Area(): nat {
      width * height
    }
  }

  /** The rectangles the terminal library hands out: their number of cells
      is itself a `u16`, since constructing a rectangle shrinks its size
      until the area fits. */
  type Rect = r: Rectangle | r.Area() < 0x1_0000 witness Rect(0, 0, 0, 0)

  /** Multiplication by a fixed factor is monotone. */
  lemma MulMonotone(a: nat, b: nat, w: nat)
    ensures a <= b ==> a * w <= b * w
  {
  }

  /** One more row adds one more row's width. */
  lemma MulSucc(a: int, w: int)
    ensures (a + 1) * w == a * w + w
  {
  }
}
