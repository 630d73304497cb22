/** The editing operations every prompt state gets by default, and the key
    table that maps key events onto them.

    The value is indexed by byte in the original; under the one-byte-per-
    character assumption a byte offset is a character offset.  Where the
    original would panic (inserting or removing past the end of the value),
    the operation has a precondition instead. */
module Editing {
  import opened Base
  import opened PromptStatus
  import opened EditState
  import Keys
  import Actions

  /** `b` is `a` with the character at offset `i` removed. */
  predicate RemovedAt(a: string, b: string, i: nat)
  {
    i < |a| && |b| + 1 == |a| && b[..i] == a[..i] && b[i..] == a[i + 1..]
  }

  /** `b` is `a` with `c` inserted at offset `i`. */
  predicate InsertedAt(a: string, b: string, i: nat, c: char)
  {
    i <= |a| && |b| == |a| + 1 && b[..i] == a[..i] && b[i] == c && b[i + 1..] == a[i..]
  }

  /** Marks the prompt accepted; nothing else changes. */
  function Complete(s: TextState): (r: TextState)
    ensures r.status == Done && r.IsFinished()
    ensures r.(status := s.status) == s
  {
    s.(status := Done)
  }

  /** Marks the prompt abandoned; nothing else changes. */
  function Abort(s: TextState): (r: TextState)
    ensures r.status == Aborted && r.IsFinished()
    ensures r.(status := s.status) == s
  {
    s.(status := Aborted)
  }

  /** Removes the character under the edit offset; at the end of the value
      there is none and nothing happens. */
  function Delete(s: TextState): (r: TextState)
    requires s.position <= |s.value|
    ensures s.position == |s.value| ==> r == s
    ensures s.position < |s.value| ==> RemovedAt(s.value, r.value, s.position)
    ensures r.(value := s.value) == s
  {
    if s.position == |s.value| then s
    else s.(value := s.value[..s.position] + s.value[s.position + 1..])
  }

  /** Steps the offset back by one (stopping at 0) and removes the character
      found there.  At offset 0 that is the first character; nothing happens
      only when the stepped-back offset equals the value's length, which for
      a valid state means the value is empty. */
  function Backspace(s: TextState): (r: TextState)
    requires s.position <= |s.value| + 1
    ensures var q := if s.position == 0 then 0 else s.position - 1;
      && (q == |s.value| ==> r == s)
      && (q < |s.value| ==> RemovedAt(s.value, r.value, q) && r.position == q)
    ensures Valid(s) ==> (r == s <==> s.value == [])
    ensures r.(value := s.value, position := s.position) == s
  {
    var q := if s.position == 0 then 0 else s.position - 1;
    if q == |s.value| then s
    else s.(position := q, value := s.value[..q] + s.value[q + 1..])
  }

  /** Advances the offset by one unless it sits exactly at the end. */
  function MoveRight(s: TextState): (r: TextState)
    ensures s.position == |s.value| ==> r == s
    ensures s.position != |s.value| ==> r.position == s.position + 1
    ensures r.(position := s.position) == s
  {
    if s.position == |s.value| then s else s.(position := s.position + 1)
  }

  /** Steps the offset back by one, saturating at 0. */
  function MoveLeft(s: TextState): (r: TextState)
    ensures s.position == 0 ==> r.position == 0
    ensures s.position > 0 ==> r.position + 1 == s.position
    ensures r.(position := s.position) == s
  {
    if s.position == 0 then s else s.(position := s.position - 1)
  }

  function MoveEnd(s: TextState): (r: TextState)
    ensures r.position == |r.value|
    ensures r.(position := s.position) == s
  {
    s.(position := |s.value|)
  }

  function MoveStart(s: TextState): (r: TextState)
    ensures r.position == 0
    ensures r.(position := s.position) == s
  {
    s.(position := 0)
  }

  /** Keeps the value up to the edit offset; an offset past the end keeps it all. */
  function Kill(s: TextState): (r: TextState)
    ensures r.value <= s.value
    ensures |r.value| == Min(s.position, |s.value|)
    ensures r.(value := s.value) == s
  {
    if s.position <= |s.value| then s.(value := s.value[..s.position]) else s
  }

  /** Empties the value and returns the offset to 0 (bound to Ctrl+U). */
  function Truncate(s: TextState): (r: TextState)
    ensures r.value == [] && r.position == 0
    ensures r.(value := s.value, position := s.position) == s
  {
    s.(value := [], position := 0)
  }

  /** Inserts `c` at the edit offset and moves the offset past it. */
  function Push(s: TextState, c: char): (r: TextState)
    requires s.position <= |s.value|
    ensures InsertedAt(s.value, r.value, s.position, c)
    ensures r.position == s.position + 1
    ensures r.(value := s.value, position := s.position) == s
  {
    s.(value := s.value[..s.position] + [c] + s.value[s.position..], position := s.position + 1)
  }

  /** The fixed key table.  Named keys match whatever modifiers are held;
      control chords match only when Control is the sole modifier; a plain
      character is inserted only when no modifier at all is held. */
  function Dispatch(code: Keys.KeyCode, modifiers: set<Keys.Modifier>): (a: Actions.Action)
    ensures a != Actions.Ignore ==> Documented(a, code, modifiers)
  {
    var ctrl := modifiers == {Keys.Control};
    match code
    case Enter => Actions.Complete
    case Esc => Actions.Abort
    case Left => Actions.MoveLeft
    case Right => Actions.MoveRight
    case Home => Actions.MoveStart
    case End => Actions.MoveEnd
    case Backspace => Actions.Backspace
    case Delete => Actions.Delete
    case Char(c) =>
      if ctrl && c == 'c' then Actions.Abort
      else if ctrl && c == 'b' then Actions.MoveLeft
      else if ctrl && c == 'f' then Actions.MoveRight
      else if ctrl && c == 'a' then Actions.MoveStart
      else if ctrl && c == 'e' then Actions.MoveEnd
      else if ctrl && c == 'h' then Actions.Backspace
      else if ctrl && c == 'd' then Actions.Delete
      else if ctrl && c == 'k' then Actions.Kill
      else if ctrl && c == 'u' then Actions.Truncate
      else if modifiers == {} then Actions.Push(c)
      else Actions.Ignore
    case Other => Actions.Ignore
  }

  /** The action can run without the original panicking. */
  predicate Admissible(s: TextState, a: Actions.Action)
  {
    match a
    case Delete => s.position <= |s.value|
    case Push(_) => s.position <= |s.value|
    case Backspace => s.position <= |s.value| + 1
    case _ => true
  }

  /** Runs the selected operation.  No operation moves the focus or the
      rendered cursor, and each keeps the edit offset within the value. */
  function Apply(s: TextState, a: Actions.Action): (r: TextState)
    requires Admissible(s, a)
    ensures r.focus == s.focus && r.cursor == s.cursor
    ensures Valid(s) ==> Valid(r)
  {
    match a
    case Complete => Complete(s)
    case Abort => Abort(s)
    case MoveLeft => MoveLeft(s)
    case MoveRight => MoveRight(s)
    case MoveStart => MoveStart(s)
    case MoveEnd => MoveEnd(s)
    case Backspace => Backspace(s)
    case Delete => Delete(s)
    case Kill => Kill(s)
    case Truncate => Truncate(s)
    case Push(c) => Push(s, c)
    case Ignore => s
  }

  /** Handles one key event: a release is ignored, a press or repeat runs
      the action the key table selects. */
  function HandleKey(s: TextState, ev: Keys.KeyEvent): (r: TextState)
    requires ev.kind == Keys.Release || Admissible(s, Dispatch(ev.code, ev.modifiers))
    ensures ev.kind == Keys.Release ==> r == s
    ensures Valid(s) ==> Valid(r)
  {
    if ev.kind == Keys.Release then s
    else Apply(s, Dispatch(ev.code, ev.modifiers))
  }

  /** Handles key events in order, as the host loop does. */
  function HandleKeys(s: TextState, evs: seq<Keys.KeyEvent>): (r: TextState)
    requires Valid(s)
    ensures Valid(r)
    ensures (forall i :: 0 <= i < |evs| ==> evs[i].kind == Keys.Release) ==> r == s
    decreases |evs|
  {
    if evs == [] then s
    else HandleKeys(HandleKey(s, evs[0]), evs[1..])
  }

  /** From a valid state every action is admissible and leaves a valid
      state, so a valid prompt never reaches the original's panics. */
  lemma ApplyKeepsValid(s: TextState, a: Actions.Action)
    requires Valid(s)
    ensures Admissible(s, a)
    ensures Valid(Apply(s, a))
  {
  }

  /** The binding list in the documentation of the prompt state, with each
      chord mapped to the operation it names.  The documentation describes
      Ctrl+U as deleting to the start of the line; the operation bound to it
      is `Truncate`. */
  predicate Documented(a: Actions.Action, code: Keys.KeyCode, modifiers: set<Keys.Modifier>)
  {
    var ctrl := (c: char) => code == Keys.Char(c) && modifiers == {Keys.Control};
    match a
    case Complete => code == Keys.Enter
    case Abort => code == Keys.Esc || ctrl('c')
    case MoveLeft => code == Keys.Left || ctrl('b')
    case MoveRight => code == Keys.Right || ctrl('f')
    case MoveStart => code == Keys.Home || ctrl('a')
    case MoveEnd => code == Keys.End || ctrl('e')
    case Backspace => code == Keys.Backspace || ctrl('h')
    case Delete => code == Keys.Delete || ctrl('d')
    case Kill => ctrl('k')
    case Truncate => ctrl('u')
    case Push(c) => code == Keys.Char(c) && modifiers == {}
    case Ignore => false
  }

  /** The key table selects an operation exactly for its documented chords
      (and a plain character for insertion); every other event, including a
      shifted or otherwise modified character, is ignored. */
  lemma DispatchMatchesDocs(code: Keys.KeyCode, modifiers: set<Keys.Modifier>, a: Actions.Action)
    ensures a != Actions.Ignore ==> (Dispatch(code, modifiers) == a <==> Documented(a, code, modifiers))
    ensures Dispatch(code, modifiers) == Actions.Ignore <==>
      (forall b: Actions.Action :: b != Actions.Ignore ==> !Documented(b, code, modifiers))
  {
    if Dispatch(code, modifiers) != Actions.Ignore {
      assert Documented(Dispatch(code, modifiers), code, modifiers);
    } else {
      forall b: Actions.Action | b != Actions.Ignore
        ensures !Documented(b, code, modifiers)
      {
      }
    }
  }

  /** Insertion is undone by a backspace. */
  lemma {:induction false} PushThenBackspace(s: TextState, c: char)
    requires Valid(s)
    ensures Backspace(Push(s, c)) == s
  {
    var p := Push(s, c);
    assert p.value[..s.position] + p.value[s.position + 1..] == s.value;
  }

  /** A forward delete is undone by reinserting the removed character and
      stepping back over it. */
  lemma {:induction false} DeleteThenReinsert(s: TextState)
    requires s.position < |s.value|
    ensures MoveLeft(Push(Delete(s), s.value[s.position])) == s
  {
    var d := Delete(s);
    var p := s.position;
    assert d.value[..p] + [s.value[p]] + d.value[p..] == s.value;
  }

  /** Moving right then left returns to the same state when there is room. */
  lemma RightThenLeft(s: TextState)
    requires s.position < |s.value|
    ensures MoveLeft(MoveRight(s)) == s
  {
  }

  /** Killing twice is killing once. */
  lemma KillIdempotent(s: TextState)
    ensures Kill(Kill(s)) == Kill(s)
  {
  }

  /** No editing operation looks at the status: an edit of a finished
      prompt changes its value and offset exactly as it would for a pending
      one.  Completing and aborting change nothing but the status. */
  lemma EditsIgnoreStatus(s: TextState, a: Actions.Action, t: Status)
    requires Admissible(s, a)
    ensures a != Actions.Complete && a != Actions.Abort ==>
      Apply(s.(status := t), a) == Apply(s, a).(status := t)
    ensures Apply(s, a).(status := s.status) == s || (a != Actions.Complete && a != Actions.Abort)
  {
  }

  /** After completion the prompt still accepts characters. */
  lemma TypingAfterCompletion(s: TextState, c: char)
    requires Valid(s)
    ensures Complete(s).IsFinished()
    ensures Push(Complete(s), c).value != Complete(s).value
  {
    assert |Push(Complete(s), c).value| == |s.value| + 1;
  }
}
