/*
 * The playback store (src/store/algorithmStore.ts): one mutable record of
 * playback position, play flag, speed, input and loaded trace, changed in
 * place by its actions.
 *
 * Each action is specified by a function on the store's value
 * (PlaybackState -> PlaybackState); the class Store holds the fields and
 * its methods are proved to move the store's value by that function.
 */
module AlgorithmStore {
  import opened PalindromeLogic

  /** The store's fields, as one value. */
  datatype PlaybackState = PlaybackState(
    currentStep: int,
    totalSteps: int,
    isPlaying: bool,
    speed: int,          // delay between automatic steps, in milliseconds
    input: string,
    steps: seq<Step>)

  const NormalSpeed := 600

  const InitialState := PlaybackState(0, 0, false, NormalSpeed, "", [])

  /**
   * The store invariant: the position is never negative, lies inside a
   * non-empty trace, and totalSteps is the length of the loaded trace.
   */
  predicate Inv(s: PlaybackState) {
    && 0 <= s.currentStep
    && (s.totalSteps > 0 ==> s.currentStep < s.totalSteps)
    && s.totalSteps == |s.steps|
  }

  /* ---------------------------------------------------------------------- */
  /* The actions, as functions on the store's value                         */
  /* ---------------------------------------------------------------------- */

  /** play: restart from the first step when at (or past) the last one, then play. */
  function AfterPlay(s: PlaybackState): PlaybackState {
    if s.currentStep >= s.totalSteps - 1 then s.(currentStep := 0, isPlaying := true)
    else s.(isPlaying := true)
  }

  function AfterPause(s: PlaybackState): PlaybackState {
    s.(isPlaying := false)
  }

  function AfterReset(s: PlaybackState): PlaybackState {
    s.(currentStep := 0, isPlaying := false)
  }

  function AfterNextStep(s: PlaybackState): PlaybackState {
    if s.currentStep < s.totalSteps - 1 then s.(currentStep := s.currentStep + 1) else s
  }

  function AfterPrevStep(s: PlaybackState): PlaybackState {
    if s.currentStep > 0 then s.(currentStep := s.currentStep - 1) else s
  }

  function AfterSetSpeed(s: PlaybackState, speed: int): PlaybackState {
    s.(speed := speed)
  }

  function AfterSetInput(s: PlaybackState, input: string): PlaybackState {
    s.(input := input)
  }

  function AfterSetSteps(s: PlaybackState, steps: seq<Step>): PlaybackState {
    s.(steps := steps, totalSteps := |steps|, currentStep := 0)
  }

  /* ---------------------------------------------------------------------- */
  /* Properties of the actions                                              */
  /* ---------------------------------------------------------------------- */

  /** Every action keeps the store invariant; loading a trace establishes it from any state. */
  lemma ActionsKeepInv(s: PlaybackState, speed: int, input: string, steps: seq<Step>)
    ensures Inv(InitialState)
    ensures Inv(AfterSetSteps(s, steps))
    ensures Inv(s) ==>
      && Inv(AfterPlay(s)) && Inv(AfterPause(s)) && Inv(AfterReset(s))
      && Inv(AfterNextStep(s)) && Inv(AfterPrevStep(s))
      && Inv(AfterSetSpeed(s, speed)) && Inv(AfterSetInput(s, input))
  {
  }

  /**
   * play always ends playing; it rewinds to the first step exactly when the
   * position is at or past the last step (so on an empty trace it also
   * starts playing, at step 0); nothing but position and play flag changes.
   */
  lemma PlaySpec(s: PlaybackState)
    requires Inv(s)
    ensures AfterPlay(s).isPlaying
    ensures AfterPlay(s).currentStep == (if s.currentStep == s.totalSteps - 1 || s.totalSteps == 0 then 0 else s.currentStep)
    ensures AfterPlay(s).(currentStep := s.currentStep, isPlaying := s.isPlaying) == s
  {
  }

  /** pause and reset stop playing, change nothing else, and are idempotent. */
  lemma PauseResetIdempotent(s: PlaybackState)
    ensures !AfterPause(s).isPlaying && AfterPause(s).(isPlaying := s.isPlaying) == s
    ensures AfterPause(AfterPause(s)) == AfterPause(s)
    ensures !AfterReset(s).isPlaying && AfterReset(s).currentStep == 0
    ensures AfterReset(s).(currentStep := s.currentStep, isPlaying := s.isPlaying) == s
    ensures AfterReset(AfterReset(s)) == AfterReset(s)
  {
  }

  /**
   * nextStep and prevStep move by exactly one or not at all, never leave
   * [0, totalSteps - 1] and never touch the play flag; each undoes the other.
   */
  lemma StepMovesByOne(s: PlaybackState)
    requires Inv(s)
    ensures AfterNextStep(s).currentStep == s.currentStep + 1 <==> s.currentStep < s.totalSteps - 1
    ensures AfterNextStep(s).currentStep != s.currentStep + 1 ==> AfterNextStep(s) == s
    ensures AfterPrevStep(s).currentStep == s.currentStep - 1 <==> s.currentStep > 0
    ensures AfterPrevStep(s).currentStep != s.currentStep - 1 ==> AfterPrevStep(s) == s
    ensures AfterNextStep(s).isPlaying == s.isPlaying && AfterPrevStep(s).isPlaying == s.isPlaying
    ensures s.currentStep < s.totalSteps - 1 ==> AfterPrevStep(AfterNextStep(s)) == s
    ensures 0 < s.currentStep < s.totalSteps ==> AfterNextStep(AfterPrevStep(s)) == s
  {
  }

  /** setSteps loads the trace at its first step and leaves the play flag, speed and input alone. */
  lemma SetStepsSpec(s: PlaybackState, steps: seq<Step>)
    ensures AfterSetSteps(s, steps).totalSteps == |steps| && AfterSetSteps(s, steps).steps == steps
    ensures AfterSetSteps(s, steps).currentStep == 0
    ensures AfterSetSteps(s, steps).isPlaying == s.isPlaying
    ensures AfterSetSteps(s, steps).speed == s.speed && AfterSetSteps(s, steps).input == s.input
  {
  }

  /* ---------------------------------------------------------------------- */
  /* The store                                                              */
  /* ---------------------------------------------------------------------- */

  class Store {
    var currentStep: int
    var totalSteps: int
    var isPlaying: bool
    var speed: int
    var input: string
    var steps: seq<Step>

    function State(): PlaybackState
      reads this
    {
      PlaybackState(currentStep, totalSteps, isPlaying, speed, input, steps)
    }

    predicate Valid()
      reads this
    {
      Inv(State())
    }

    constructor ()
      ensures Valid() && State() == InitialState
    {
      currentStep, totalSteps, isPlaying, speed := 0, 0, false, NormalSpeed;
      input, steps := "", [];
    }

    method Play()
      requires Valid()
      modifies this
      ensures Valid() && State() == AfterPlay(old(State()))
    {
      if currentStep >= totalSteps - 1 {
        currentStep, isPlaying := 0, true;
      } else {
        isPlaying := true;
      }
    }

    method Pause()
      requires Valid()
      modifies this
      ensures Valid() && State() == AfterPause(old(State()))
    {
      isPlaying := false;
    }

    method Reset()
      requires Valid()
      modifies this
      ensures Valid() && State() == AfterReset(old(State()))
    {
      currentStep, isPlaying := 0, false;
    }

    method NextStep()
      requires Valid()
      modifies this
      ensures Valid() && State() == AfterNextStep(old(State()))
    {
      if currentStep < totalSteps - 1 {
        currentStep := currentStep + 1;
      }
    }

    method PrevStep()
      requires Valid()
      modifies this
      ensures Valid() && State() == AfterPrevStep(old(State()))
    {
      if currentStep > 0 {
        currentStep := currentStep - 1;
      }
    }

    /** Stores the delay as given: no clamping, no check for a positive value. */
    method SetSpeed(speed: int)
      requires Valid()
      modifies this
      ensures Valid() && State() == AfterSetSpeed(old(State()), speed)
    {
      this.speed := speed;
    }

    method SetInput(input: string)
      requires Valid()
      modifies this
      ensures Valid() && State() == AfterSetInput(old(State()), input)
    {
      this.input := input;
    }

    /** Loads a trace; valid afterwards whatever the state before. */
    method SetSteps(steps: seq<Step>)
      modifies this
      ensures Valid() && State() == AfterSetSteps(old(State()), steps)
    {
      this.steps, totalSteps, currentStep := steps, |steps|, 0;
    }
  }
}
