# Palindrome step visualizer: trace generator and playback controller

This project models the two pieces of the algorithm visualizer that hold its logic:

- **The trace generator** (`src/lib/algorithms/palindrome/logic.ts`). It cleans the input text: lower-case it, then keep only `[a-z0-9]`. It then runs the two-pointer palindrome check and records each moment as a step: numbered, with the `left`/`right` pointers, a `comparing` flag, an optional verdict `result`, and the highlighted positions. `isPalindrome` is the same walk without the narration.
- **The playback controller**:
  - the store of `src/store/algorithmStore.ts`, which holds `currentStep`, `totalSteps`, `isPlaying`, `speed`, `input` and `steps`, with the actions `play`, `pause`, `reset`, `nextStep`, `prevStep`, `setSpeed`, `setInput` and `setSteps`;
  - the navigation hook of `src/hooks/useStepControls.ts`: button guards, play/pause toggle and seek;
  - the auto-advance timer of `src/hooks/useAlgorithmExecution.ts`;
  - the "Visualize" action of `src/components/algorithm/InputPanel.tsx`, which loads a fresh trace into the store.

Files:

| file | module | models |
|---|---|---|
| `palindrome_logic.dfy` | `PalindromeLogic` | step records, cleaning, the generator and `isPalindrome` as methods with loops, the specification function `PalindromeTrace`, and lemmas about the trace |
| `algorithm_store.dfy` | `AlgorithmStore` | the store's value `PlaybackState`, its invariant `Inv`, one function per action, and the class `Store` whose methods update the fields in place |
| `step_controls.dfy` | `StepControls` | the guard predicates, `TogglePlayPause`, `GoToStep` (a seek built from repeated next/prev calls) |
| `algorithm_execution.dfy` | `AlgorithmExecution` | the timer callback `TickRule`, `Run` (the store after k timer periods), `Tick`, and the play-through lemmas |
| `input_panel.dfy` | `InputPanel` | `HandleVisualize`: ignore blank input, otherwise reset, record the input and load its trace |

The generator is a lazy generator in the source, but every caller drains it at once (`Array.from`). So `GeneratePalindromeSteps` builds the whole sequence with the source's loop. It is proved equal to the recursive specification `PalindromeTrace`, and the trace's properties are lemmas about that function. Each store action is a function on the store's value (`AfterPlay`, `AfterNextStep`, …). Each `Store` method is proved to move `State()` by that function and to keep `Valid()`, the store invariant: `0 <= currentStep`, `totalSteps > 0 ==> currentStep < totalSteps`, and `totalSteps == |steps|`.

The model follows the code, including these behaviours:

- `play` tests `currentStep >= totalSteps - 1`, so on an empty trace it sets `currentStep := 0` and `isPlaying := true`. The first timer period then pauses again at step 0 (`EmptyTracePlayPauses`).
- `nextStep`/`prevStep` leave `isPlaying` as it is. Of the navigation actions, only `goToStep` pauses.
- `setSpeed` stores its argument as given, with no range check or clamping.
- After play at step 0 of an n-step trace, period k shows step k for k < n, and n periods after play the store is paused at step n−1 (`PlayFromStart`).

## Model

| member | source | states |
|---|---|---|
| `PalindromeLogic.ToLower` | src/lib/algorithms/palindrome/logic.ts:12 | `toLowerCase` on one character, restricted to ASCII: `A`–`Z` map to `a`–`z`, every other character is kept |
| `PalindromeLogic.LowerAll` | src/lib/algorithms/palindrome/logic.ts:12 | `toLowerCase` on the whole text, character by character |
| `PalindromeLogic.IsLowerAlnum` | src/lib/algorithms/palindrome/logic.ts:12 | the character class `[a-z0-9]` the cleaning keeps |
| `PalindromeLogic.Clean` | src/lib/algorithms/palindrome/logic.ts:90 | the cleaning both functions apply first: lower-case, then keep only `[a-z0-9]` |
| `PalindromeLogic.EmptyTrace` | src/lib/algorithms/palindrome/logic.ts:14-24 | the single step for empty cleaned text: number 0, left = right = 0, not comparing, result = true, no highlights |
| `PalindromeLogic.InitStep` | src/lib/algorithms/palindrome/logic.ts:31-38 | the first step for non-empty cleaned text: number 0, pointers at both ends, not comparing, no result, both ends highlighted |
| `PalindromeLogic.CompareStep` | src/lib/algorithms/palindrome/logic.ts:41-48 | the comparison step: the two characters under the pointers, comparing, no result, both pointers highlighted |
| `PalindromeLogic.LoopHead` | src/lib/algorithms/palindrome/logic.ts:41-75 | the steps an iteration emits when the characters match: the comparison, then the advance step only if the moved pointers are still apart |
| `PalindromeLogic.NextK` | src/lib/algorithms/palindrome/logic.ts:42-68 | the step number after a matching iteration: two more when an advance step was emitted, one more otherwise |
| `PalindromeLogic.TraceFrom` | src/lib/algorithms/palindrome/logic.ts:40-86 | the steps of the `while` loop from given pointers, ending with the false verdict at the first mismatch or the true verdict once the pointers meet or cross |
| `PalindromeLogic.PalindromeTrace` | src/lib/algorithms/palindrome/logic.ts:11-87 | the whole trace: the single empty-input step for empty cleaned text, otherwise the Init step followed by the loop's steps |
| `PalindromeLogic.GeneratePalindromeSteps` | src/lib/algorithms/palindrome/logic.ts:11-87 | the loop builds exactly `PalindromeTrace(text)`, the recursive specification of the trace that the lemmas below are about |
| `PalindromeLogic.IsPalindrome` | src/lib/algorithms/palindrome/logic.ts:89-103 | the two-pointer loop returns true exactly when the cleaned text equals its reverse |
| `PalindromeLogic.KeepLowerAlnum` | src/lib/algorithms/palindrome/logic.ts:12 | the filter keeps only `[a-z0-9]` characters and never lengthens the text |
| `PalindromeLogic.CleanIsIdempotent` | src/lib/algorithms/palindrome/logic.ts:12 | cleaned text holds only `[a-z0-9]`, and cleaning it again leaves it unchanged |
| `PalindromeLogic.CleanByCharacter` | src/lib/algorithms/palindrome/logic.ts:12 | cleaning distributes over concatenation; a single character becomes its lower-case form if that is in `[a-z0-9]`, and is dropped otherwise |
| `PalindromeLogic.CleanFixesLowerAlnum` | src/lib/algorithms/palindrome/logic.ts:12 | text made only of `[a-z0-9]` is its own cleaned form |
| `PalindromeLogic.KeepLowerAlnumKeepsClean` | src/lib/algorithms/palindrome/logic.ts:12 | the filter leaves text that is already all `[a-z0-9]` unchanged |
| `PalindromeLogic.PalindromicAt` | src/lib/algorithms/palindrome/logic.ts:94-100 | "equals its reverse" holds exactly when every position matches its mirror position, which is what the pointer loop compares |
| `PalindromeLogic.MirroredHalfSuffices` | src/lib/algorithms/palindrome/logic.ts:94-102 | once the pointers meet or cross with every pair left of `left` matched, the text is a palindrome |
| `PalindromeLogic.MismatchRefutes` | src/lib/algorithms/palindrome/logic.ts:95-97 | one position that differs from its mirror makes the text not a palindrome |
| `PalindromeLogic.TraceFromVerdict` | src/lib/algorithms/palindrome/logic.ts:40-86 | from any loop state with the pairs left of `left` matched, the remaining steps end with the verdict "palindrome or not" |
| `PalindromeLogic.TraceFromNumbering` | src/lib/algorithms/palindrome/logic.ts:40-86 | the loop's steps are numbered k, k+1, … without gaps |
| `PalindromeLogic.TraceFromResults` | src/lib/algorithms/palindrome/logic.ts:40-86 | only the last step emitted by the loop carries a verdict |
| `PalindromeLogic.TraceFromPointers` | src/lib/algorithms/palindrome/logic.ts:40-86 | every pointer the loop emits lies in the cleaned text, and `left + right` is the cleaned length minus one |
| `PalindromeLogic.TraceFromFirst` | src/lib/algorithms/palindrome/logic.ts:40-86 | the loop's first emitted step is never a false verdict nor an advance step |
| `PalindromeLogic.LoopHeadComparing` | src/lib/algorithms/palindrome/logic.ts:41-75 | within a matching iteration, the comparing step names and highlights both characters and is not followed by a false verdict |
| `PalindromeLogic.LoopHeadAdvance` | src/lib/algorithms/palindrome/logic.ts:63-75 | within a matching iteration, the advance step directly follows the comparison, one position further in on each side |
| `PalindromeLogic.TraceFromComparing` | src/lib/algorithms/palindrome/logic.ts:40-61 | in the loop's steps, every comparing step has the pointers apart, names and highlights both characters, and is followed by the false verdict exactly when they differ |
| `PalindromeLogic.TraceFromMismatch` | src/lib/algorithms/palindrome/logic.ts:50-61 | in the loop's steps, a false verdict is last and directly follows the failed comparison, with the same pointers |
| `PalindromeLogic.TraceFromAdvance` | src/lib/algorithms/palindrome/logic.ts:63-75 | in the loop's steps, an advance step follows a comparison, one position further in on each side, with the pointers still apart |
| `PalindromeLogic.TraceNumbered` | src/lib/algorithms/palindrome/logic.ts:14-86 | every trace is non-empty and its `step` fields are exactly 0, 1, …, n−1 |
| `PalindromeLogic.TraceStart` | src/lib/algorithms/palindrome/logic.ts:14-38 | empty cleaned text gives the single step (0, left = right = 0, not comparing, `result = true`, no highlights); any other text gives at least two steps, the first being Init at both ends |
| `PalindromeLogic.OnlyLastStepHasResult` | src/lib/algorithms/palindrome/logic.ts:50-86 | the last step carries a result and no earlier step does |
| `PalindromeLogic.TraceVerdict` | src/lib/algorithms/palindrome/logic.ts:50-86 | the last step's result is whether the cleaned text equals its reverse, the value `IsPalindrome` returns |
| `PalindromeLogic.TracePointersInRange` | src/lib/algorithms/palindrome/logic.ts:27-86 | for non-empty cleaned text, every step has both pointers inside the cleaned text and `left + right` is the cleaned length minus one |
| `PalindromeLogic.ComparingSteps` | src/lib/algorithms/palindrome/logic.ts:40-61 | a step compares exactly when its kind is Compare. A comparing step has `left < right`, highlights `[left, right]`, names `cleaned[left]` and `cleaned[right]`, and is followed by the false verdict exactly when those differ |
| `PalindromeLogic.MismatchEndsTrace` | src/lib/algorithms/palindrome/logic.ts:50-61 | a `result = false` step is the last step, and it directly follows a comparing step with the same pointers whose characters differ |
| `PalindromeLogic.AdvanceSteps` | src/lib/algorithms/palindrome/logic.ts:63-75 | an advance step is emitted only with `left < right` after the move, right after the comparison one position further out |
| `PalindromeLogic.HelloTrace` | src/lib/algorithms/palindrome/logic.ts:27-61 | "hello" gives Init, Compare('h','o'), then the false verdict at pointers 0 and 4 |
| `PalindromeLogic.NoAlphanumerics` | src/lib/algorithms/palindrome/logic.ts:12-25 | "" and "!!!" both give the single empty-input step |
| `PalindromeLogic.RacecarPalindromic` | src/lib/algorithms/palindrome/logic.ts:94-102 | "racecar" equals its reverse |
| `PalindromeLogic.RacecarTrace` | src/lib/algorithms/palindrome/logic.ts:12-86 | the trace of "racecar" ends with `result = true` |
| `AlgorithmStore.InitialState` | src/store/algorithmStore.ts:6-15 | the store's initial value: step 0 of 0, paused, speed 600, empty input and trace |
| `AlgorithmStore.AfterPlay` | src/store/algorithmStore.ts:17-25 | play: back to step 0 when at or past the last step, then playing |
| `AlgorithmStore.AfterPause` | src/store/algorithmStore.ts:27 | pause: clears `isPlaying` |
| `AlgorithmStore.AfterReset` | src/store/algorithmStore.ts:29 | reset: step 0, paused |
| `AlgorithmStore.AfterNextStep` | src/store/algorithmStore.ts:31-36 | nextStep: one step on while before the last step, otherwise no change |
| `AlgorithmStore.AfterPrevStep` | src/store/algorithmStore.ts:38-43 | prevStep: one step back while after step 0, otherwise no change |
| `AlgorithmStore.AfterSetSpeed` | src/store/algorithmStore.ts:45 | setSpeed: stores the delay as given |
| `AlgorithmStore.AfterSetInput` | src/store/algorithmStore.ts:47 | setInput: stores the input text |
| `AlgorithmStore.AfterSetSteps` | src/store/algorithmStore.ts:49-54 | setSteps: stores the trace and its length and goes to step 0 |
| `AlgorithmStore.ActionsKeepInv` | src/store/algorithmStore.ts:6-54 | the initial state satisfies the invariant, every action keeps it, and `setSteps` establishes it from any state |
| `AlgorithmStore.PlaySpec` | src/store/algorithmStore.ts:17-25 | play always ends playing. It rewinds to step 0 exactly at the last step or on an empty trace, and changes nothing else |
| `AlgorithmStore.PauseResetIdempotent` | src/store/algorithmStore.ts:27-29 | pause clears only `isPlaying`; reset sets only `currentStep := 0` and `isPlaying := false`; both are idempotent |
| `AlgorithmStore.StepMovesByOne` | src/store/algorithmStore.ts:31-43 | nextStep increments iff `currentStep < totalSteps - 1`; prevStep decrements iff `currentStep > 0`. Otherwise nothing changes. Neither touches `isPlaying`, and each undoes the other |
| `AlgorithmStore.SetStepsSpec` | src/store/algorithmStore.ts:49-54 | setSteps gives `totalSteps` equal to the length of `steps` and `currentStep == 0`, and leaves `isPlaying`, `speed` and `input` unchanged |
| `AlgorithmStore.Store.constructor` | src/store/algorithmStore.ts:6-15 | the initial state: step 0 of 0, paused, speed 600, empty input and trace |
| `AlgorithmStore.Store.Play` | src/store/algorithmStore.ts:17-25 | the store moves by `AfterPlay` and stays valid |
| `AlgorithmStore.Store.Pause` | src/store/algorithmStore.ts:27 | the store moves by `AfterPause` and stays valid |
| `AlgorithmStore.Store.Reset` | src/store/algorithmStore.ts:29 | the store moves by `AfterReset` and stays valid |
| `AlgorithmStore.Store.NextStep` | src/store/algorithmStore.ts:31-36 | the store moves by `AfterNextStep` and stays valid |
| `AlgorithmStore.Store.PrevStep` | src/store/algorithmStore.ts:38-43 | the store moves by `AfterPrevStep` and stays valid |
| `AlgorithmStore.Store.SetSpeed` | src/store/algorithmStore.ts:45 | only `speed` changes, to the given value |
| `AlgorithmStore.Store.SetInput` | src/store/algorithmStore.ts:47 | only `input` changes, to the given value |
| `AlgorithmStore.Store.SetSteps` | src/store/algorithmStore.ts:49-54 | loads the trace at step 0, and the store is valid afterwards whatever its state before |
| `StepControls.CanPlayOrPause` | src/hooks/useStepControls.ts:21 | the play/pause button is enabled while a trace is loaded |
| `StepControls.CanGoBack` | src/hooks/useStepControls.ts:22 | the back button is enabled after step 0 |
| `StepControls.CanGoForward` | src/hooks/useStepControls.ts:23 | the forward button is enabled before the last step |
| `StepControls.IsAtStart` | src/hooks/useStepControls.ts:24 | the position is step 0 |
| `StepControls.IsAtEnd` | src/hooks/useStepControls.ts:25 | the position is the last step |
| `StepControls.SeekTarget` | src/hooks/useStepControls.ts:40-50 | where the seek's repeated nextStep or prevStep calls leave the position, each call stopping at the ends of the trace |
| `StepControls.GuardsMatchActions` | src/hooks/useStepControls.ts:22-23 | `canGoForward` holds exactly when nextStep would change the store, and `canGoBack` exactly when prevStep would |
| `StepControls.StartAndEnd` | src/hooks/useStepControls.ts:21-25 | `isAtStart` iff there is no going back; `isAtEnd` iff a trace is loaded and there is no going forward; `canPlayOrPause` iff a trace is loaded |
| `StepControls.TogglePlayPause` | src/hooks/useStepControls.ts:27-33 | pauses when the view shows playing and plays otherwise; with a current view, `isPlaying` flips |
| `StepControls.GoToStep` | src/hooks/useStepControls.ts:35-51 | an index outside the view's trace changes nothing. Otherwise the store ends paused, at the position the next/prev calls reach. With a current view, that position is the index |
| `AlgorithmExecution.TickRule` | src/hooks/useAlgorithmExecution.ts:14-20 | the timer callback: nextStep before the last step, pause at it |
| `AlgorithmExecution.Run` | src/hooks/useAlgorithmExecution.ts:11-22 | the store after k timer periods: a playing store ticks once per period, a paused one arms no timer and stays as it is |
| `AlgorithmExecution.TickSpec` | src/hooks/useAlgorithmExecution.ts:14-20 | a tick keeps the invariant, never decreases `currentStep`, never passes `totalSteps - 1`, and either advances by one and keeps playing, or pauses in place |
| `AlgorithmExecution.PausedStaysPut` | src/hooks/useAlgorithmExecution.ts:12 | after pause, no number of timer periods changes the store |
| `AlgorithmExecution.RunAdvances` | src/hooks/useAlgorithmExecution.ts:14-17 | while the last step is not reached, k periods advance exactly k steps |
| `AlgorithmExecution.RunSplit` | src/hooks/useAlgorithmExecution.ts:11-22 | a+b timer periods are a periods followed by b periods |
| `AlgorithmExecution.PlayThrough` | src/hooks/useAlgorithmExecution.ts:11-22 | playing from step c of an n-step trace visits c, c+1, …, n−1 one period each without skipping, and pauses at n−1 on the next period |
| `AlgorithmExecution.PlayFromStart` | src/hooks/useAlgorithmExecution.ts:11-22 | after play at the first or last step, period k shows step k while playing, for k < n; period n pauses at step n−1 |
| `AlgorithmExecution.EmptyTracePlayPauses` | src/hooks/useAlgorithmExecution.ts:14-20 | on an empty trace play sets `isPlaying`, and the first period pauses at step 0 |
| `AlgorithmExecution.Tick` | src/hooks/useAlgorithmExecution.ts:14-20 | the timer callback: nextStep if `currentStep < totalSteps - 1`, otherwise pause |
| `AlgorithmExecution.Period` | src/hooks/useAlgorithmExecution.ts:11-22 | one timer period: nothing happens unless playing, and a tick happens if playing |
| `InputPanel.IsTrimmed` | src/components/algorithm/InputPanel.tsx:20 | the white space and line terminators `trim` removes |
| `InputPanel.IsBlank` | src/components/algorithm/InputPanel.tsx:20 | `!inputValue.trim()`: the input is empty once trimmed |
| `InputPanel.HandleVisualize` | src/components/algorithm/InputPanel.tsx:19-31 | blank input changes nothing. Otherwise the store ends paused at step 0 of `PalindromeTrace(input)`, which is non-empty and ends with the verdict on the cleaned input, with the input recorded and the speed kept |

## Left out

- Clean: lower-cases ASCII `A`–`Z` only. JavaScript's `toLowerCase` is full Unicode and can map some non-ASCII characters into `[a-z]`, for example KELVIN SIGN to `k`. Those characters are dropped here.
- The step's description text is the datatype `StepKind`. `Compare` carries the two characters the text quotes.
- Time is not modelled. The timer's delay (`speed`), `setTimeout`/`clearTimeout` and React's effect cleanup are absent. `Run(s, k)` counts timer periods instead. The model relies on the effect's dependencies cancelling and re-arming the timer on every change, so a firing always sees the live store.
- The hooks read the store when the component renders. `GoToStep` and `TogglePlayPause` take those render-time values as parameters. `Tick` reads the live store, which the timer's re-arming keeps equal to its render-time values.
- JavaScript numbers are floating point. Here `currentStep`, `totalSteps`, `speed` and `GoToStep`'s `stepIndex` are unbounded integers. A fractional speed is not representable, nor is a fractional `stepIndex`, which in the source passes the range check and makes the seek loop run until `i` passes the fractional difference.
- The store's `output` and `metadata` fields and `setMetadata` are static page content with no logic.
- The store holds generic step records in the source. Here it holds palindrome steps.
- The pages, layout, code and pseudocode displays, the visualizer's animation arithmetic, `useVisualization`'s floating-point progress percentage, and the UI preference store (local storage, DOM classes) are presentation only.
- The timer effect duplicated in `ControlPanel.tsx` has the same rule as `useAlgorithmExecution.ts` and is covered by `Tick`.
