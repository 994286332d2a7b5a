/*
 * The step-navigation hook (src/hooks/useStepControls.ts): derived guards for
 * the transport buttons, play/pause toggling and seeking to a step.
 *
 * The hook reads the store when the component renders and acts on the live
 * store later; the values it read ("the view") are passed in explicitly
 * where the code uses them instead of the live store.
 */
module StepControls {
  import opened AlgorithmStore

  predicate CanPlayOrPause(s: PlaybackState) { s.totalSteps > 0 }
  predicate CanGoBack(s: PlaybackState) { s.currentStep > 0 }
  predicate CanGoForward(s: PlaybackState) { s.currentStep < s.totalSteps - 1 }
  predicate IsAtStart(s: PlaybackState) { s.currentStep == 0 }
  predicate IsAtEnd(s: PlaybackState) { s.currentStep == s.totalSteps - 1 }

  /** Each step button is enabled exactly when its action would change the store. */
  lemma GuardsMatchActions(s: PlaybackState)
    ensures CanGoForward(s) <==> AfterNextStep(s) != s
    ensures CanGoBack(s) <==> AfterPrevStep(s) != s
  {
  }

  /**
   * On a valid store: at the start exactly when there is no going back; at
   * the end exactly when a trace is loaded and there is no going forward;
   * play/pause is offered exactly when a trace is loaded.
   */
  lemma StartAndEnd(s: PlaybackState)
    requires Inv(s)
    ensures IsAtStart(s) <==> !CanGoBack(s)
    ensures IsAtEnd(s) <==> CanPlayOrPause(s) && !CanGoForward(s)
    ensures CanPlayOrPause(s) <==> |s.steps| > 0
  {
  }

  /**
   * Where `diff` calls of nextStep (diff >= 0) or -diff calls of prevStep
   * (diff < 0) leave a position c in a trace of `total` steps: each call
   * stops at the ends of the trace.
   */
  function SeekTarget(c: int, diff: int, total: int): int {
    if diff >= 0 then
      if c >= total - 1 then c else if c + diff < total - 1 then c + diff else total - 1
    else
      if c + diff > 0 then c + diff else if c > 0 then 0 else c
  }

  /** togglePlayPause: pause if the view shows playing, else play. */
  method TogglePlayPause(store: Store, viewIsPlaying: bool)
    requires store.Valid()
    modifies store
    ensures store.Valid()
    ensures store.State() == if viewIsPlaying then AfterPause(old(store.State())) else AfterPlay(old(store.State()))
    ensures viewIsPlaying == old(store.isPlaying) ==> store.isPlaying == !old(store.isPlaying)
  {
    if viewIsPlaying {
      store.Pause();
    } else {
      store.Play();
    }
  }

  /**
   * goToStep: an index outside the view's trace is ignored. Otherwise pause,
   * then step forward or back as many times as the index differs from the
   * view's position. When the view is current the store ends paused at the index.
   */
  method GoToStep(store: Store, stepIndex: int, viewStep: int, viewTotal: int)
    requires store.Valid()
    modifies store
    ensures store.Valid()
    ensures !(0 <= stepIndex < viewTotal) ==> store.State() == old(store.State())
    ensures 0 <= stepIndex < viewTotal ==>
      store.State() == old(store.State()).(
        isPlaying := false,
        currentStep := SeekTarget(old(store.currentStep), stepIndex - viewStep, old(store.totalSteps)))
    ensures 0 <= stepIndex < viewTotal && viewStep == old(store.currentStep) && viewTotal == old(store.totalSteps) ==>
      !store.isPlaying && store.currentStep == stepIndex
  {
    if 0 <= stepIndex < viewTotal {
      store.Pause();
      var diff := stepIndex - viewStep;
      if diff > 0 {
        for i := 0 to diff
          invariant store.Valid()
          invariant store.State() == old(store.State()).(
            isPlaying := false,
            currentStep := SeekTarget(old(store.currentStep), i, old(store.totalSteps)))
        {
          store.NextStep();
        }
      } else if diff < 0 {
        for i := 0 to -diff
          invariant store.Valid()
          invariant store.State() == old(store.State()).(
            isPlaying := false,
            currentStep := SeekTarget(old(store.currentStep), -i, old(store.totalSteps)))
        {
          store.PrevStep();
        }
      }
    }
  }
}
