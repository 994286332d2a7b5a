/*
 * The "Visualize" action of the input panel
 * (src/components/algorithm/InputPanel.tsx): ignore blank input; otherwise
 * reset playback, record the input and load its freshly generated trace.
 */
module InputPanel {
  import opened PalindromeLogic
  import opened AlgorithmStore

  /** The characters JavaScript's String.prototype.trim removes: white space and line terminators. */
  predicate IsTrimmed(c: char) {
    || c == '\t' || c == '\n' || c == '\U{000B}' || c == '\U{000C}' || c == '\r' || c == ' '
    || c == '\U{00A0}' || c == '\U{1680}' || '\U{2000}' <= c <= '\U{200A}'
    || c == '\U{2028}' || c == '\U{2029}' || c == '\U{202F}' || c == '\U{205F}'
    || c == '\U{3000}' || c == '\U{FEFF}'
  }

  /** `!inputValue.trim()`: nothing is left once white space is trimmed. */
  predicate IsBlank(s: string) {
    forall i :: 0 <= i < |s| ==> IsTrimmed(s[i])
  }

  /**
   * handleVisualize. Blank input changes nothing. Otherwise the store ends
   * paused at step 0 of the trace of `inputValue`, which holds at least one
   * step and ends with the input's verdict, with the input recorded and the
   * speed kept.
   */
  method HandleVisualize(store: Store, inputValue: string)
    requires store.Valid()
    modifies store
    ensures store.Valid()
    ensures IsBlank(inputValue) ==> store.State() == old(store.State())
    ensures !IsBlank(inputValue) ==>
      store.State() == AfterSetSteps(AfterSetInput(AfterReset(old(store.State())), inputValue), PalindromeTrace(inputValue))
    ensures !IsBlank(inputValue) ==>
      && store.currentStep == 0 && !store.isPlaying && store.totalSteps > 0
      && store.steps == PalindromeTrace(inputValue) && store.input == inputValue
      && store.speed == old(store.speed)
    ensures !IsBlank(inputValue) ==> Last(store.steps).result == Some(Palindromic(Clean(inputValue)))
  {
    if IsBlank(inputValue) {
      return;
    }
    store.Reset();
    store.SetInput(inputValue);
    var steps := GeneratePalindromeSteps(inputValue);
    TraceVerdict(inputValue);
    store.SetSteps(steps);
  }
}
