/*
 * The palindrome step-trace generator and the plain two-pointer check
 * (src/lib/algorithms/palindrome/logic.ts).
 *
 * The generator is a lazy sequence in the original; every caller drains it at
 * once, so here it is a method that builds the whole trace with the same loop,
 * proved equal to the specification function PalindromeTrace. Properties of
 * the trace are lemmas about PalindromeTrace.
 */
module PalindromeLogic {

  datatype Option<T> = None | Some(value: T)

  /** What a step narrates; stands for the step's description text. */
  datatype StepKind =
    | EmptyInput                 // the cleaned text is empty: trivially a palindrome
    | Init                       // pointers placed at both ends
    | Compare(first: char, second: char)  // the two characters under the pointers
    | Mismatch                   // characters differ: not a palindrome
    | Advance                    // characters matched, pointers moved inward
    | Success                    // every pair matched: a palindrome

  /** One record of the trace (PalindromeStep). `result` is present only on a verdict. */
  datatype Step = Step(
    step: nat,
    kind: StepKind,
    left: int,
    right: int,
    comparing: bool,
    result: Option<bool>,
    highlights: seq<int>)

  /* ---------------------------------------------------------------------- */
  /* Cleaning: lower-case, then keep only [a-z0-9] (ASCII)                   */
  /* ---------------------------------------------------------------------- */

  predicate IsLowerAlnum(c: char) {
    'a' <= c <= 'z' || '0' <= c <= '9'
  }

  function ToLower(c: char): char {
    if 'A' <= c <= 'Z' then (c as int + 32) as char else c
  }

  function LowerAll(s: string): string {
    seq(|s|, i requires 0 <= i < |s| => ToLower(s[i]))
  }

  /** The characters of `s` that lie in [a-z0-9], in order. */
  function KeepLowerAlnum(s: string): (r: string)
    ensures |r| <= |s|
    ensures forall i :: 0 <= i < |r| ==> IsLowerAlnum(r[i])
  {
    if s == [] then []
    else (if IsLowerAlnum(s[0]) then [s[0]] else []) + KeepLowerAlnum(s[1..])
  }

  /** text.toLowerCase().replace(/[^a-z0-9]/g, '') */
  function Clean(text: string): string {
    KeepLowerAlnum(LowerAll(text))
  }

  /* ---------------------------------------------------------------------- */
  /* Reference meaning of "palindrome"                                      */
  /* ---------------------------------------------------------------------- */

  function Reversed(s: string): (r: string)
    ensures |r| == |s|
  {
    seq(|s|, i requires 0 <= i < |s| => s[|s| - 1 - i])
  }

  predicate Palindromic(s: string) {
    s == Reversed(s)
  }

  /* ---------------------------------------------------------------------- */
  /* The trace                                                              */
  /* ---------------------------------------------------------------------- */

  /**
   * What the loop keeps of its two pointers: they mirror each other around
   * the middle of `c`, and `left` has passed `right` by at most one.
   */
  predicate PointersOk(c: string, left: int, right: int) {
    0 <= left <= right + 1 && left + right == |c| - 1
  }

  /** The step that reports comparing the characters under the two pointers. */
  function CompareStep(c: string, left: int, right: int, k: nat): Step
    requires 0 <= left < right < |c|
  {
    Step(k, Compare(c[left], c[right]), left, right, true, None, [left, right])
  }

  /** Where step numbering resumes after an iteration whose characters match. */
  function NextK(left: int, right: int, k: nat): nat {
    if left + 1 < right - 1 then k + 2 else k + 1
  }

  /**
   * The steps an iteration emits when the characters match: the comparison,
   * then the move inward, reported only while the pointers are still apart.
   */
  function LoopHead(c: string, left: int, right: int, k: nat): seq<Step>
    requires 0 <= left < right < |c|
  {
    if left + 1 < right - 1 then
      [CompareStep(c, left, right, k), Step(k + 1, Advance, left + 1, right - 1, false, None, [left + 1, right - 1])]
    else
      [CompareStep(c, left, right, k)]
  }

  /** The steps the `while (left < right)` loop and the final verdict emit, numbered from k. */
  function TraceFrom(c: string, left: int, right: int, k: nat): seq<Step>
    requires PointersOk(c, left, right)
    decreases right - left
  {
    if left < right then
      if c[left] != c[right] then
        [CompareStep(c, left, right, k), Step(k + 1, Mismatch, left, right, false, Some(false), [left, right])]
      else
        LoopHead(c, left, right, k) + TraceFrom(c, left + 1, right - 1, NextK(left, right, k))
    else
      [Step(k, Success, left, right, false, Some(true), [])]
  }

  const EmptyTrace: seq<Step> := [Step(0, EmptyInput, 0, 0, false, Some(true), [])]

  /** The first step of a non-empty cleaned text: pointers at both ends, both highlighted. */
  function InitStep(c: string): Step {
    Step(0, Init, 0, |c| - 1, false, None, [0, |c| - 1])
  }

  /** The whole trace generatePalindromeSteps yields for `text`. */
  function PalindromeTrace(text: string): seq<Step> {
    var c := Clean(text);
    if |c| == 0 then EmptyTrace
    else [InitStep(c)] + TraceFrom(c, 0, |c| - 1, 1)
  }

  function Last(t: seq<Step>): Step
    requires |t| > 0
  {
    t[|t| - 1]
  }

  /* ---------------------------------------------------------------------- */
  /* The two loops of the source                                            */
  /* ---------------------------------------------------------------------- */

  /** generatePalindromeSteps, drained into a sequence. */
  method GeneratePalindromeSteps(text: string) returns (trace: seq<Step>)
    ensures trace == PalindromeTrace(text)
  {
    var cleaned := Clean(text);
    if |cleaned| == 0 {
      trace := EmptyTrace;
      return;
    }
    var left, right := 0, |cleaned| - 1;
    var step: nat := 0;
    trace := [Step(step, Init, left, right, false, None, [left, right])];
    step := step + 1;
    ghost var full := PalindromeTrace(text);
    while left < right
      invariant PointersOk(cleaned, left, right)
      invariant step == |trace|
      invariant trace + TraceFrom(cleaned, left, right, step) == full
      decreases right - left
    {
      ghost var before, rest := trace, TraceFrom(cleaned, left, right, step);
      trace := trace + [CompareStep(cleaned, left, right, step)];
      step := step + 1;
      if cleaned[left] != cleaned[right] {
        trace := trace + [Step(step, Mismatch, left, right, false, Some(false), [left, right])];
        step := step + 1;
        assert trace == before + rest;
        return;
      }
      TraceFromMatch(cleaned, left, right, |before|);
      ghost var head := LoopHead(cleaned, left, right, |before|);
      ghost var next := NextK(left, right, |before|);
      left, right := left + 1, right - 1;
      if left < right {
        trace := trace + [Step(step, Advance, left, right, false, None, [left, right])];
        step := step + 1;
        assert trace == before + head;
      } else {
        assert trace == before + head;
      }
      assert step == next;
      AppendAssociates(before, head, TraceFrom(cleaned, left, right, step));
    }
    trace := trace + [Step(step, Success, left, right, false, Some(true), [])];
  }

  lemma AppendAssociates<T>(a: seq<T>, b: seq<T>, c: seq<T>)
    ensures (a + b) + c == a + (b + c)
  {
  }

  /** isPalindrome: the same two-pointer walk without the narration. */
  method IsPalindrome(text: string) returns (b: bool)
    ensures b == Palindromic(Clean(text))
  {
    var cleaned := Clean(text);
    var left, right := 0, |cleaned| - 1;
    while left < right
      invariant PointersOk(cleaned, left, right)
      invariant MirroredBelow(cleaned, left)
      decreases right - left
    {
      if cleaned[left] != cleaned[right] {
        MismatchRefutes(cleaned, left);
        return false;
      }
      left, right := left + 1, right - 1;
    }
    MirroredHalfSuffices(cleaned, left, right);
    return true;
  }

  /* ---------------------------------------------------------------------- */
  /* Lemmas: cleaning                                                       */
  /* ---------------------------------------------------------------------- */

  lemma {:induction false} KeepLowerAlnumKeepsClean(s: string)
    requires forall i :: 0 <= i < |s| ==> IsLowerAlnum(s[i])
    ensures KeepLowerAlnum(s) == s
  {
    if s != [] {
      KeepLowerAlnumKeepsClean(s[1..]);
    }
  }

  /** Text made only of [a-z0-9] is its own cleaned form. */
  lemma CleanFixesLowerAlnum(s: string)
    requires forall i :: 0 <= i < |s| ==> IsLowerAlnum(s[i])
    ensures Clean(s) == s
  {
    assert LowerAll(s) == s by {
      forall i | 0 <= i < |s| ensures LowerAll(s)[i] == s[i] {
        assert IsLowerAlnum(s[i]);
      }
    }
    KeepLowerAlnumKeepsClean(s);
  }

  /** Cleaned text holds only [a-z0-9], and cleaning it again changes nothing. */
  lemma CleanIsIdempotent(text: string)
    ensures forall i :: 0 <= i < |Clean(text)| ==> IsLowerAlnum(Clean(text)[i])
    ensures Clean(Clean(text)) == Clean(text)
  {
    CleanFixesLowerAlnum(Clean(text));
  }

  lemma {:induction false} KeepLowerAlnumAppend(a: string, b: string)
    ensures KeepLowerAlnum(a + b) == KeepLowerAlnum(a) + KeepLowerAlnum(b)
  {
    if a == [] {
      assert a + b == b;
    } else {
      assert (a + b)[1..] == a[1..] + b;
      KeepLowerAlnumAppend(a[1..], b);
    }
  }

  /**
   * Cleaning works character by character: it distributes over
   * concatenation, and one character is lower-cased and kept exactly
   * when the result is in [a-z0-9].
   */
  lemma CleanByCharacter(a: string, b: string, ch: char)
    ensures Clean(a + b) == Clean(a) + Clean(b)
    ensures Clean([ch]) == if IsLowerAlnum(ToLower(ch)) then [ToLower(ch)] else []
  {
    assert LowerAll(a + b) == LowerAll(a) + LowerAll(b);
    KeepLowerAlnumAppend(LowerAll(a), LowerAll(b));
    assert LowerAll([ch]) == [ToLower(ch)];
    assert [ToLower(ch)][1..] == [];
  }

  /* ---------------------------------------------------------------------- */
  /* Lemmas: the two-pointer check decides Palindromic                      */
  /* ---------------------------------------------------------------------- */

  /** Every position left of `left` matches its mirror image. */
  predicate MirroredBelow(c: string, left: int)
    requires 0 <= left <= |c|
  {
    forall i :: 0 <= i < left ==> c[i] == c[|c| - 1 - i]
  }

  lemma PalindromicAt(c: string)
    ensures Palindromic(c) <==> forall i :: 0 <= i < |c| ==> c[i] == c[|c| - 1 - i]
  {
    var r := Reversed(c);
    assert forall i :: 0 <= i < |c| ==> r[i] == c[|c| - 1 - i];
    if forall i :: 0 <= i < |c| ==> c[i] == c[|c| - 1 - i] {
      assert forall i :: 0 <= i < |c| ==> r[i] == c[i];
      assert c == r;
    }
  }

  /** Once the pointers meet or cross, the checked half decides the whole string. */
  lemma MirroredHalfSuffices(c: string, left: int, right: int)
    requires PointersOk(c, left, right) && left >= right
    requires MirroredBelow(c, left)
    ensures Palindromic(c)
  {
    forall i | 0 <= i < |c| ensures c[i] == c[|c| - 1 - i] {
      if i >= left {
        var j := |c| - 1 - i;
        assert j <= left;
        if j < left {
          assert c[j] == c[|c| - 1 - j];
        }
      }
    }
    PalindromicAt(c);
  }

  lemma MismatchRefutes(c: string, left: int)
    requires 0 <= left < |c| && c[left] != c[|c| - 1 - left]
    ensures !Palindromic(c)
  {
    PalindromicAt(c);
  }

  /* ---------------------------------------------------------------------- */
  /* Lemmas about TraceFrom                                                 */
  /* ---------------------------------------------------------------------- */

  lemma LastOfAppend(h: seq<Step>, r: seq<Step>)
    requires |r| > 0
    ensures |h + r| > 0 && Last(h + r) == Last(r)
  {
  }

  lemma {:induction false} TraceFromVerdict(c: string, left: int, right: int, k: nat)
    requires PointersOk(c, left, right) && MirroredBelow(c, left)
    ensures |TraceFrom(c, left, right, k)| > 0
    ensures Last(TraceFrom(c, left, right, k)).result == Some(Palindromic(c))
    decreases right - left
  {
    if left < right {
      if c[left] != c[right] {
        MismatchRefutes(c, left);
      } else {
        var r := TraceFrom(c, left + 1, right - 1, NextK(left, right, k));
        assert MirroredBelow(c, left + 1) by {
          forall i | 0 <= i < left + 1 ensures c[i] == c[|c| - 1 - i] {
          }
        }
        TraceFromVerdict(c, left + 1, right - 1, NextK(left, right, k));
        LastOfAppend(LoopHead(c, left, right, k), r);
      }
    } else {
      MirroredHalfSuffices(c, left, right);
    }
  }

  /* ---------------------------------------------------------------------- */
  /* Shape of a trace                                                        */
  /* ---------------------------------------------------------------------- */

  /** Steps are numbered k, k+1, ... in emission order, without gaps. */
  predicate NumberedFrom(t: seq<Step>, k: int) {
    forall i :: 0 <= i < |t| ==> t[i].step == k + i
  }

  /** The last step carries a verdict and no earlier step does. */
  predicate VerdictOnlyLast(t: seq<Step>) {
    |t| > 0 && Last(t).result.Some? && forall i :: 0 <= i < |t| - 1 ==> t[i].result == None
  }

  /** Both pointers lie inside the cleaned text and mirror each other. */
  predicate PointersInRange(c: string, s: Step) {
    0 <= s.left < |c| && 0 <= s.right < |c| && s.left + s.right == |c| - 1
  }

  /**
   * A step compares exactly when its kind is Compare. A comparing step has its
   * pointers apart, names the two characters under them, highlights both, and
   * is followed by a step that is the false verdict exactly when they differ.
   */
  predicate ComparingStepOk(c: string, t: seq<Step>, i: int)
    requires 0 <= i < |t|
  {
    && (t[i].comparing <==> t[i].kind.Compare?)
    && (t[i].comparing ==>
          && 0 <= t[i].left < t[i].right < |c|
          && t[i].kind == Compare(c[t[i].left], c[t[i].right])
          && t[i].highlights == [t[i].left, t[i].right]
          && i + 1 < |t|
          && (t[i + 1].result == Some(false) <==> c[t[i].left] != c[t[i].right]))
  }

  /**
   * A false verdict is the last step; it comes right after the comparison
   * that failed, with the same pointers, whose characters differ.
   */
  predicate MismatchStepOk(c: string, t: seq<Step>, i: int)
    requires 0 <= i < |t|
  {
    t[i].result == Some(false) ==>
      && i == |t| - 1 && 0 < i
      && t[i - 1].comparing && t[i - 1].left == t[i].left && t[i - 1].right == t[i].right
      && t[i].highlights == [t[i].left, t[i].right]
      && 0 <= t[i].left < t[i].right < |c| && c[t[i].left] != c[t[i].right]
  }

  /**
   * An advance step follows a comparison, one position further in on each
   * side, and is emitted only while the pointers are still apart.
   */
  predicate AdvanceStepOk(t: seq<Step>, i: int)
    requires 0 <= i < |t|
  {
    t[i].kind == Advance ==>
      && t[i].left < t[i].right && !t[i].comparing && t[i].result == None
      && t[i].highlights == [t[i].left, t[i].right]
      && 0 < i && t[i - 1].comparing
      && t[i - 1].left + 1 == t[i].left && t[i - 1].right - 1 == t[i].right
  }

  predicate ComparingStepsOk(c: string, t: seq<Step>) {
    forall i :: 0 <= i < |t| ==> ComparingStepOk(c, t, i)
  }

  predicate MismatchStepsOk(c: string, t: seq<Step>) {
    forall i :: 0 <= i < |t| ==> MismatchStepOk(c, t, i)
  }

  predicate AdvanceStepsOk(t: seq<Step>) {
    forall i :: 0 <= i < |t| ==> AdvanceStepOk(t, i)
  }

  /* ---------------------------------------------------------------------- */
  /* Lemmas about TraceFrom, by induction on the loop                       */
  /* ---------------------------------------------------------------------- */

  lemma NumberedConcat(h: seq<Step>, r: seq<Step>, k: int)
    requires NumberedFrom(h, k) && NumberedFrom(r, k + |h|)
    ensures NumberedFrom(h + r, k)
  {
    var t := h + r;
    forall i | 0 <= i < |t| ensures t[i].step == k + i {
      if i < |h| {
        assert t[i] == h[i];
      } else {
        assert t[i] == r[i - |h|];
      }
    }
  }

  lemma ResultsConcat(h: seq<Step>, r: seq<Step>)
    requires forall i :: 0 <= i < |h| ==> h[i].result == None
    requires VerdictOnlyLast(r)
    ensures VerdictOnlyLast(h + r)
  {
    var t := h + r;
    assert Last(t) == Last(r);
    forall i | 0 <= i < |t| - 1 ensures t[i].result == None {
      if i < |h| {
        assert t[i] == h[i];
      } else {
        assert t[i] == r[i - |h|];
      }
    }
  }

  lemma PointersConcat(c: string, h: seq<Step>, r: seq<Step>)
    requires forall i :: 0 <= i < |h| ==> PointersInRange(c, h[i])
    requires forall i :: 0 <= i < |r| ==> PointersInRange(c, r[i])
    ensures forall i :: 0 <= i < |h + r| ==> PointersInRange(c, (h + r)[i])
  {
    var t := h + r;
    forall i | 0 <= i < |t| ensures PointersInRange(c, t[i]) {
      if i < |h| {
        assert t[i] == h[i];
      } else {
        assert t[i] == r[i - |h|];
      }
    }
  }

  lemma {:induction false} TraceFromNumbering(c: string, left: int, right: int, k: nat)
    requires PointersOk(c, left, right)
    ensures NumberedFrom(TraceFrom(c, left, right, k), k)
    decreases right - left
  {
    if left < right && c[left] == c[right] {
      var r := TraceFrom(c, left + 1, right - 1, NextK(left, right, k));
      TraceFromNumbering(c, left + 1, right - 1, NextK(left, right, k));
      NumberedConcat(LoopHead(c, left, right, k), r, k);
    }
  }

  lemma {:induction false} TraceFromResults(c: string, left: int, right: int, k: nat)
    requires PointersOk(c, left, right)
    ensures VerdictOnlyLast(TraceFrom(c, left, right, k))
    decreases right - left
  {
    if left < right && c[left] == c[right] {
      var r := TraceFrom(c, left + 1, right - 1, NextK(left, right, k));
      TraceFromResults(c, left + 1, right - 1, NextK(left, right, k));
      ResultsConcat(LoopHead(c, left, right, k), r);
    }
  }

  lemma {:induction false} TraceFromPointers(c: string, left: int, right: int, k: nat)
    requires PointersOk(c, left, right) && |c| > 0
    ensures forall i :: 0 <= i < |TraceFrom(c, left, right, k)| ==> PointersInRange(c, TraceFrom(c, left, right, k)[i])
    decreases right - left
  {
    if left < right && c[left] == c[right] {
      var r := TraceFrom(c, left + 1, right - 1, NextK(left, right, k));
      TraceFromPointers(c, left + 1, right - 1, NextK(left, right, k));
      PointersConcat(c, LoopHead(c, left, right, k), r);
    }
  }

  /** An iteration whose characters match emits its head, then the loop goes on one position further in. */
  lemma TraceFromMatch(c: string, left: int, right: int, k: nat)
    requires PointersOk(c, left, right) && left < right && c[left] == c[right]
    ensures TraceFrom(c, left, right, k) == LoopHead(c, left, right, k) + TraceFrom(c, left + 1, right - 1, NextK(left, right, k))
  {
  }

  /* The shape predicates carry over from the rest of a trace to the whole, given its head. */

  lemma ComparingConcat(c: string, h: seq<Step>, r: seq<Step>)
    requires ComparingStepsOk(c, r)
    requires forall i :: 0 <= i < |h| ==> ComparingStepOk(c, h + r, i)
    ensures ComparingStepsOk(c, h + r)
  {
    var t := h + r;
    forall i | |h| <= i < |t| ensures ComparingStepOk(c, t, i) {
      assert ComparingStepOk(c, r, i - |h|);
      assert t[i] == r[i - |h|];
      if i + 1 < |t| {
        assert t[i + 1] == r[i + 1 - |h|];
      }
    }
  }

  lemma MismatchConcat(c: string, h: seq<Step>, r: seq<Step>)
    requires MismatchStepsOk(c, r)
    requires forall i :: 0 <= i < |h| ==> h[i].result == None
    ensures MismatchStepsOk(c, h + r)
  {
    var t := h + r;
    forall i | 0 <= i < |t| ensures MismatchStepOk(c, t, i) {
      if i >= |h| {
        assert MismatchStepOk(c, r, i - |h|);
        assert t[i] == r[i - |h|];
        if i > |h| {
          assert t[i - 1] == r[i - 1 - |h|];
        }
      } else {
        assert t[i] == h[i];
      }
    }
  }

  lemma AdvanceConcat(h: seq<Step>, r: seq<Step>)
    requires AdvanceStepsOk(r)
    requires forall i :: 0 <= i < |h| ==> AdvanceStepOk(h + r, i)
    requires |r| > 0 && r[0].kind != Advance
    ensures AdvanceStepsOk(h + r)
  {
    var t := h + r;
    forall i | |h| <= i < |t| ensures AdvanceStepOk(t, i) {
      assert AdvanceStepOk(r, i - |h|);
      assert t[i] == r[i - |h|];
      if i > |h| {
        assert t[i - 1] == r[i - 1 - |h|];
      }
    }
  }

  /** The first step of the rest of a trace compares or is the true verdict. */
  lemma TraceFromFirst(c: string, left: int, right: int, k: nat)
    requires PointersOk(c, left, right)
    ensures |TraceFrom(c, left, right, k)| > 0
    ensures var s := TraceFrom(c, left, right, k)[0];
      s.result != Some(false) && s.kind != Advance
  {
  }

  /** Within an iteration's head, the comparison is followed by a step that is no false verdict. */
  lemma LoopHeadComparing(c: string, left: int, right: int, k: nat, r: seq<Step>)
    requires 0 <= left < right < |c| && c[left] == c[right]
    requires |r| > 0 && r[0].result != Some(false)
    ensures forall i :: 0 <= i < |LoopHead(c, left, right, k)| ==> ComparingStepOk(c, LoopHead(c, left, right, k) + r, i)
  {
    var t := LoopHead(c, left, right, k) + r;
    assert t[0] == CompareStep(c, left, right, k);
    if left + 1 < right - 1 {
      assert t[1] == LoopHead(c, left, right, k)[1];
    } else {
      assert t[1] == r[0];
    }
  }

  /** Within an iteration's head, the move inward follows the comparison. */
  lemma LoopHeadAdvance(c: string, left: int, right: int, k: nat, r: seq<Step>)
    requires 0 <= left < right < |c|
    ensures forall i :: 0 <= i < |LoopHead(c, left, right, k)| ==> AdvanceStepOk(LoopHead(c, left, right, k) + r, i)
  {
    var t := LoopHead(c, left, right, k) + r;
    assert t[0] == CompareStep(c, left, right, k);
    if left + 1 < right - 1 {
      assert t[1] == LoopHead(c, left, right, k)[1];
    }
  }

  lemma {:induction false} TraceFromComparing(c: string, left: int, right: int, k: nat)
    requires PointersOk(c, left, right)
    ensures ComparingStepsOk(c, TraceFrom(c, left, right, k))
    decreases right - left
  {
    if left < right {
      if c[left] == c[right] {
        var r := TraceFrom(c, left + 1, right - 1, NextK(left, right, k));
        TraceFromComparing(c, left + 1, right - 1, NextK(left, right, k));
        TraceFromFirst(c, left + 1, right - 1, NextK(left, right, k));
        LoopHeadComparing(c, left, right, k, r);
        ComparingConcat(c, LoopHead(c, left, right, k), r);
      } else {
        var t := TraceFrom(c, left, right, k);
        assert ComparingStepOk(c, t, 0);
        assert ComparingStepOk(c, t, 1);
      }
    }
  }

  lemma {:induction false} TraceFromMismatch(c: string, left: int, right: int, k: nat)
    requires PointersOk(c, left, right)
    ensures MismatchStepsOk(c, TraceFrom(c, left, right, k))
    decreases right - left
  {
    if left < right && c[left] == c[right] {
      var r := TraceFrom(c, left + 1, right - 1, NextK(left, right, k));
      TraceFromMismatch(c, left + 1, right - 1, NextK(left, right, k));
      MismatchConcat(c, LoopHead(c, left, right, k), r);
    }
  }

  lemma {:induction false} TraceFromAdvance(c: string, left: int, right: int, k: nat)
    requires PointersOk(c, left, right)
    ensures AdvanceStepsOk(TraceFrom(c, left, right, k))
    decreases right - left
  {
    if left < right && c[left] == c[right] {
      var r := TraceFrom(c, left + 1, right - 1, NextK(left, right, k));
      TraceFromAdvance(c, left + 1, right - 1, NextK(left, right, k));
      TraceFromFirst(c, left + 1, right - 1, NextK(left, right, k));
      LoopHeadAdvance(c, left, right, k, r);
      AdvanceConcat(LoopHead(c, left, right, k), r);
    }
  }

  /* ---------------------------------------------------------------------- */
  /* Properties of the whole trace                                          */
  /* ---------------------------------------------------------------------- */

  /** Every trace is non-empty and numbered 0, 1, ..., n-1. */
  lemma TraceNumbered(text: string)
    ensures |PalindromeTrace(text)| > 0
    ensures NumberedFrom(PalindromeTrace(text), 0)
  {
    var c := Clean(text);
    if |c| > 0 {
      TraceFromNumbering(c, 0, |c| - 1, 1);
    }
  }

  /**
   * Empty cleaned text gives the single EmptyInput step; any other text
   * gives at least two steps, the first being Init with the pointers at both ends.
   */
  lemma TraceStart(text: string)
    ensures Clean(text) == [] ==> PalindromeTrace(text) == EmptyTrace
    ensures Clean(text) != [] ==>
      && |PalindromeTrace(text)| >= 2
      && PalindromeTrace(text)[0] == InitStep(Clean(text))
  {
    var c := Clean(text);
    if |c| > 0 {
      TraceFromResults(c, 0, |c| - 1, 1);
    }
  }

  /** Only the last step carries a result, and it carries one. */
  lemma OnlyLastStepHasResult(text: string)
    ensures VerdictOnlyLast(PalindromeTrace(text))
  {
    var c := Clean(text);
    if |c| > 0 {
      TraceFromResults(c, 0, |c| - 1, 1);
    }
  }

  /** The trace's verdict is whether the cleaned text reads the same reversed. */
  lemma TraceVerdict(text: string)
    ensures |PalindromeTrace(text)| > 0
    ensures Last(PalindromeTrace(text)).result == Some(Palindromic(Clean(text)))
  {
    var c := Clean(text);
    if |c| > 0 {
      TraceFromVerdict(c, 0, |c| - 1, 1);
    }
  }

  /** For non-empty cleaned text every step's pointers are in range and mirror each other. */
  lemma TracePointersInRange(text: string)
    ensures Clean(text) != [] ==>
      forall i :: 0 <= i < |PalindromeTrace(text)| ==> PointersInRange(Clean(text), PalindromeTrace(text)[i])
  {
    var c := Clean(text);
    if |c| > 0 {
      TraceFromPointers(c, 0, |c| - 1, 1);
    }
  }

  lemma ComparingSteps(text: string)
    ensures ComparingStepsOk(Clean(text), PalindromeTrace(text))
  {
    var c := Clean(text);
    if |c| > 0 {
      var init := [InitStep(c)];
      var r := TraceFrom(c, 0, |c| - 1, 1);
      TraceFromComparing(c, 0, |c| - 1, 1);
      assert ComparingStepOk(c, init + r, 0);
      ComparingConcat(c, init, r);
    }
  }

  lemma MismatchEndsTrace(text: string)
    ensures MismatchStepsOk(Clean(text), PalindromeTrace(text))
  {
    var c := Clean(text);
    if |c| > 0 {
      TraceFromMismatch(c, 0, |c| - 1, 1);
      MismatchConcat(c, [InitStep(c)], TraceFrom(c, 0, |c| - 1, 1));
    }
  }

  lemma AdvanceSteps(text: string)
    ensures AdvanceStepsOk(PalindromeTrace(text))
  {
    var c := Clean(text);
    if |c| > 0 {
      var init := [InitStep(c)];
      var r := TraceFrom(c, 0, |c| - 1, 1);
      TraceFromAdvance(c, 0, |c| - 1, 1);
      TraceFromFirst(c, 0, |c| - 1, 1);
      AdvanceConcat(init, r);
    }
  }

  /* ---------------------------------------------------------------------- */
  /* Worked examples                                                         */
  /* ---------------------------------------------------------------------- */

  lemma HelloTrace()
    ensures PalindromeTrace("hello") == [
      Step(0, Init, 0, 4, false, None, [0, 4]),
      Step(1, Compare('h', 'o'), 0, 4, true, None, [0, 4]),
      Step(2, Mismatch, 0, 4, false, Some(false), [0, 4])]
  {
    CleanFixesLowerAlnum("hello");
  }

  lemma NoAlphanumerics()
    ensures PalindromeTrace("") == EmptyTrace && PalindromeTrace("!!!") == EmptyTrace
  {
    assert LowerAll("!!!") == "!!!";
    assert Clean("!!!") == "";
  }

  lemma RacecarTrace()
    ensures Last(PalindromeTrace("racecar")).result == Some(true)
  {
    CleanFixesLowerAlnum("racecar");
    RacecarPalindromic();
    TraceVerdict("racecar");
  }

  lemma RacecarPalindromic()
    ensures Palindromic("racecar")
  {
    var c := "racecar";
    forall i | 0 <= i < 3 ensures c[i] == c[6 - i] {
      assert i == 0 || i == 1 || i == 2;
    }
    MirroredHalfSuffices(c, 3, 3);
  }
}
