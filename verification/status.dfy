/** The lifecycle of a prompt: still being edited, abandoned, or accepted. */
module PromptStatus {
  import opened Text

  /** `Pending` is the default status. */
  datatype Status = Pending | Aborted | Done
  {
    /** A prompt is finished once it has been completed or aborted. */
    predicate IsFinished()
    {
      this == Done || this == Aborted
    }

    /** The glyph drawn in front of the prompt's label. */
    function Symbol(): Span
    {
      match this
      case Pending => Span("?", Style(Cyan, false, false))
      case Aborted => Span("✖", Style(Red, false, false))
      case Done => Span("✔", Style(Green, false, false))
    }
  }

  const DefaultStatus: Status := Pending

  /** Exactly the two terminal statuses are finished; the default one is not. */
  lemma FinishedStatuses(s: Status)
    ensures s.IsFinished() <==> s != Pending
    ensures !DefaultStatus.IsFinished()
  {
  }

  /** The three status glyphs, each one column wide, with their colours. */
  lemma StatusSymbols()
    ensures Pending.Symbol() == Span("?", Style(Cyan, false, false))
    ensures Aborted.Symbol() == Span("✖", Style(Red, false, false))
    ensures Done.Symbol() == Span("✔", Style(Green, false, false))
  {
  }

  /** Every glyph occupies one column and tells the statuses apart, so the
      prompt's prefix width does not depend on the status. */
  lemma SymbolsDistinctAndNarrow(s: Status, t: Status)
    ensures SpanWidth(s.Symbol()) == 1
    ensures s.Symbol() == t.Symbol() <==> s == t
  {
  }
}
