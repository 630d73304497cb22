/** The terminal key events the prompt consumes. */
module Keys {

  /** The key codes the prompt binds; `Other` stands for every other key
      code the terminal can report (Tab, Up, Down, function keys, ...), none
      of which is bound. */
  datatype KeyCode =
    | Enter
    | Esc
    | Left
    | Right
    | Home
    | End
    | Backspace
    | Delete
    | Char(c: char)
    | Other

  datatype Modifier = Shift | Control | Alt | Super | Hyper | Meta

  datatype KeyEventKind = Press | Repeat | Release

  /** A key event: the key, the exact set of modifiers held, and whether
      the key went down, repeated or came up. */
  datatype KeyEvent = KeyEvent(code: KeyCode, modifiers: set<Modifier>, kind: KeyEventKind)
}
