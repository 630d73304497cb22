/** The state record a text prompt edits, and its builder functions. */
module EditState {
  import opened PromptStatus

  /** Whether the prompt currently receives keys; `Unfocused` is the default. */
  datatype Focus = Unfocused | Focused
  {
    /** A prompt has focus exactly when it is not in the default state. */
    predicate IsFocused()
      ensures IsFocused() <==> !Unfocused?
    {
      this == Focused
    }
  }

  /** `position` is the edit offset into `value` (a byte offset, which is a
      character offset under the one-byte-per-character assumption);
      `cursor` is the screen cell last computed by a render. */
  datatype TextState = TextState(
    status: Status,
    focus: Focus,
    position: nat,
    cursor: (nat, nat),
    value: string)
  {
    /** The state is finished exactly when its status is, that is once it
        has been completed or aborted. */
    predicate IsFinished()
      ensures IsFinished() <==> status == Done || status == Aborted
    {
      status.IsFinished()
    }
  }

  /** The edit offset lies inside the value or at its end.  Every editing
      operation keeps this. */
  predicate Valid(s: TextState)
  {
    s.position <= |s.value|
  }

  /** The default record: pending, unfocused, at offset 0, empty. */
  function New(): (s: TextState)
    ensures s.status == Pending && !s.IsFinished()
    ensures !s.focus.IsFocused()
    ensures s.position == 0 && s.cursor == (0, 0)
    ensures s.value == []
  {
    TextState(Pending, Unfocused, 0, (0, 0), "")
  }

  /** Replaces the value; the edit offset is kept as it was. */
  function WithValue(s: TextState, value: string): (r: TextState)
    ensures r.value == value
    ensures r.(value := s.value) == s
  {
    s.(value := value)
  }

  function WithStatus(s: TextState, status: Status): (r: TextState)
    ensures r.status == status
    ensures r.(status := s.status) == s
  {
    s.(status := status)
  }

  function WithFocus(s: TextState, focus: Focus): (r: TextState)
    ensures r.focus == focus
    ensures r.(focus := s.focus) == s
  {
    s.(focus := focus)
  }

  /** A fresh state given a value starts at offset 0, so it is valid;
      `WithValue` applied to a state whose offset is past the new value's end
      yields an invalid one, since it does not move the offset. */
  lemma WithValueValidity(s: TextState, value: string)
    ensures Valid(WithValue(New(), value))
    ensures Valid(WithValue(s, value)) <==> s.position <= |value|
  {
  }
}
