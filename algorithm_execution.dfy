/*
 * Automatic playback (src/hooks/useAlgorithmExecution.ts): while the store
 * is playing, a one-shot timer of `speed` milliseconds is armed; when it
 * fires it advances one step, or pauses at the last step. Any change of the
 * position, length, play flag or speed cancels the timer and arms a fresh
 * one, so a firing always sees the store as it is.
 *
 * Time is not modelled: Run(s, k) is the store after k timer periods.
 */
module AlgorithmExecution {
  import opened AlgorithmStore

  /** The timer callback. A timer exists only while playing. */
  function TickRule(s: PlaybackState): PlaybackState
    requires s.isPlaying
  {
    if s.currentStep < s.totalSteps - 1 then AfterNextStep(s) else AfterPause(s)
  }

  /** The store after k timer periods: a playing store ticks, a paused one arms no timer. */
  function Run(s: PlaybackState, k: nat): PlaybackState
    decreases k
  {
    if k == 0 || !s.isPlaying then s else Run(TickRule(s), k - 1)
  }

  /**
   * A tick keeps the invariant, never moves back, never passes the last
   * step, and either advances by one and keeps playing or pauses in place.
   */
  lemma TickSpec(s: PlaybackState)
    requires Inv(s) && s.isPlaying
    ensures Inv(TickRule(s))
    ensures s.currentStep <= TickRule(s).currentStep
    ensures s.totalSteps > 0 ==> TickRule(s).currentStep <= s.totalSteps - 1
    ensures TickRule(s).isPlaying <==> TickRule(s).currentStep == s.currentStep + 1
    ensures !TickRule(s).isPlaying ==> TickRule(s) == AfterPause(s)
  {
  }

  /** After pause no automatic change happens, however many periods pass. */
  lemma PausedStaysPut(s: PlaybackState, k: nat)
    ensures Run(AfterPause(s), k) == AfterPause(s)
  {
  }

  lemma {:induction false} RunAdvances(s: PlaybackState, k: nat)
    requires Inv(s) && s.isPlaying
    requires s.currentStep + k <= s.totalSteps - 1
    ensures Run(s, k) == s.(currentStep := s.currentStep + k)
    decreases k
  {
    if k > 0 {
      RunAdvances(TickRule(s), k - 1);
    }
  }

  /**
   * Playing from position c of an n-step trace visits c, c+1, ..., n-1 one
   * period at a time, then pauses at n-1 on the next period.
   */
  lemma PlayThrough(s: PlaybackState)
    requires Inv(s) && s.isPlaying && s.totalSteps > 0
    ensures forall k: nat :: k <= s.totalSteps - 1 - s.currentStep ==>
      Run(s, k) == s.(currentStep := s.currentStep + k)
    ensures Run(s, s.totalSteps - s.currentStep) == s.(currentStep := s.totalSteps - 1, isPlaying := false)
  {
    forall k: nat | k <= s.totalSteps - 1 - s.currentStep
      ensures Run(s, k) == s.(currentStep := s.currentStep + k)
    {
      RunAdvances(s, k);
    }
    var m := s.totalSteps - 1 - s.currentStep;
    var last := s.(currentStep := s.totalSteps - 1);
    RunAdvances(s, m);
    assert Run(last, 1) == Run(AfterPause(last), 0);
    RunSplit(s, m, 1);
  }

  lemma {:induction false} RunSplit(s: PlaybackState, a: nat, b: nat)
    ensures Run(s, a + b) == Run(Run(s, a), b)
    decreases a
  {
    if a > 0 && s.isPlaying {
      RunSplit(TickRule(s), a - 1, b);
    }
  }

  /**
   * Pressing play at the first or the last step of an n-step trace shows
   * steps 0, 1, ..., n-1 in turn, and the n-th period pauses at step n-1.
   */
  lemma PlayFromStart(s: PlaybackState)
    requires Inv(s) && s.totalSteps > 0
    requires s.currentStep == 0 || s.currentStep == s.totalSteps - 1
    ensures forall k: nat :: k < s.totalSteps ==>
      Run(AfterPlay(s), k).currentStep == k && Run(AfterPlay(s), k).isPlaying
    ensures Run(AfterPlay(s), s.totalSteps) == s.(currentStep := s.totalSteps - 1, isPlaying := false)
  {
    PlayThrough(AfterPlay(s));
  }

  /** On an empty trace play still sets the play flag; the first period pauses again at step 0. */
  lemma EmptyTracePlayPauses(s: PlaybackState)
    requires Inv(s) && s.totalSteps == 0
    ensures AfterPlay(s).isPlaying
    ensures Run(AfterPlay(s), 1) == s.(currentStep := 0, isPlaying := false)
  {
  }

  /** The timer callback applied to the store. */
  method Tick(store: Store)
    requires store.Valid() && store.isPlaying
    modifies store
    ensures store.Valid() && store.State() == TickRule(old(store.State()))
  {
    if store.currentStep < store.totalSteps - 1 {
      store.NextStep();
    } else {
      store.Pause();
    }
  }

  /** One timer period: nothing is scheduled unless the store is playing. */
  method Period(store: Store)
    requires store.Valid()
    modifies store
    ensures store.Valid() && store.State() == Run(old(store.State()), 1)
  {
    if !store.isPlaying {
      return;
    }
    Tick(store);
  }
}
