/** The operations a key event can select.  They live apart from the
    editing functions of the same names, so that a module importing those
    functions sees them and not these constructors. */
module Actions {

  /** The operation a key event selects; `Ignore` is the empty match arm. */
  datatype Action =
    | Complete
    | Abort
    | MoveLeft
    | MoveRight
    | MoveStart
    | MoveEnd
    | Backspace
    | Delete
    | Kill
    | Truncate
    | Push(c: char)
    | Ignore
}
