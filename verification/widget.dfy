/** What the two prompt widgets have in common: the mask they show in place
    of a secret value, and the shape of what rendering and drawing produce. */
module Widget {
  import opened Base
  import opened Text
  import opened EditState

  /** One `*` per character of `value`. */
  function Mask(value: string): (masked: string)
    ensures |masked| == |value|
    ensures forall i :: 0 <= i < |masked| ==> masked[i] == '*'
  {
    seq(|value|, _ => '*')
  }

  /** What a render produces: the lines drawn and the state with its cursor
      cell recomputed. */
  datatype Rendered = Rendered(lines: seq<Line>, state: TextState)

  /** What a draw produces: a render, plus the cell the terminal cursor is
      moved to, if any. */
  datatype Drawn = Drawn(rendered: Rendered, frameCursor: Option<(nat, nat)>)
}
