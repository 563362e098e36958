/** Stage 2 of the step segmentation: turn transition flags into step
    indices by a running count. */
module StepNumber {

  /** The number of set flags. */
  function CountTrue(t: seq<bool>): (n: nat)
  {
    if t == [] then 0 else (if t[0] then 1 else 0) + CountTrue(t[1..])
  }

  /** `Series.cumsum()` on flags: the running total after each sample,
      starting from `acc`. */
  function RunningSum(t: seq<bool>, acc: int): (s: seq<int>)
    ensures |s| == |t|
    ensures forall i :: 0 <= i < |t| ==> s[i] == acc + CountTrue(t[..i + 1])
    decreases |t|
  {
    if t == [] then []
    else
      var next := acc + (if t[0] then 1 else 0);
      var rest := RunningSum(t[1..], next);
      assert forall i :: 1 <= i < |t| ==> t[..i + 1][1..] == t[1..][..i];
      [next] + rest
  }

  /** `assign_step_number`: `transition.cumsum() + step_number`. The step
      index of a sample is the start number plus the number of transitions
      up to and including that sample. */
  function AssignStepNumber(transition: seq<bool>, start: int): (step: seq<int>)
    ensures |step| == |transition|
    ensures forall i :: 0 <= i < |step| ==> step[i] == start + CountTrue(transition[..i + 1])
  {
    var sums := RunningSum(transition, 0);
    seq(|sums|, i requires 0 <= i < |sums| => sums[i] + start)
  }

  /** One more flag adds its own count. */
  lemma {:induction false} CountTrueSnoc(t: seq<bool>, b: bool)
    ensures CountTrue(t + [b]) == CountTrue(t) + (if b then 1 else 0)
    decreases |t|
  {
    if t != [] {
      assert (t + [b])[1..] == t[1..] + [b];
      CountTrueSnoc(t[1..], b);
    }
  }

  /** Consecutive step indices differ by exactly the later sample's flag:
      by 1 at a transition and by 0 elsewhere. */
  lemma StepIncrement(transition: seq<bool>, start: int, i: int)
    requires 0 <= i < |transition| - 1
    ensures var step := AssignStepNumber(transition, start);
      step[i + 1] == step[i] + (if transition[i + 1] then 1 else 0)
  {
    assert transition[..i + 2] == transition[..i + 1] + [transition[i + 1]];
    CountTrueSnoc(transition[..i + 1], transition[i + 1]);
  }

  /** The step index never decreases along the samples. */
  lemma {:induction false} StepMonotone(transition: seq<bool>, start: int, i: int, j: int)
    requires 0 <= i <= j < |transition|
    ensures AssignStepNumber(transition, start)[i] <= AssignStepNumber(transition, start)[j]
    decreases j - i
  {
    if i < j {
      StepIncrement(transition, start, j - 1);
      StepMonotone(transition, start, i, j - 1);
    }
  }

  /** A step is a contiguous run of samples: a sample between two samples
      of one step belongs to that step too. */
  lemma StepsContiguous(transition: seq<bool>, start: int, i: int, k: int, j: int)
    requires 0 <= i <= k <= j < |transition|
    requires AssignStepNumber(transition, start)[i] == AssignStepNumber(transition, start)[j]
    ensures AssignStepNumber(transition, start)[k] == AssignStepNumber(transition, start)[i]
  {
    StepMonotone(transition, start, i, k);
    StepMonotone(transition, start, k, j);
  }

  /** The first sample's index is the start number, plus one when the
      first sample is itself a transition. */
  lemma FirstStep(transition: seq<bool>, start: int)
    requires |transition| > 0
    ensures AssignStepNumber(transition, start)[0] == start + (if transition[0] then 1 else 0)
  {
  }

  /** Without transitions every sample keeps the start number. */
  lemma {:induction false} NoTransitionKeepsStart(transition: seq<bool>, start: int)
    requires forall i :: 0 <= i < |transition| ==> !transition[i]
    ensures AssignStepNumber(transition, start) == seq(|transition|, _ => start)
  {
    forall i | 0 <= i < |transition|
      ensures AssignStepNumber(transition, start)[i] == start
    {
      NoneSetCountsZero(transition[..i + 1]);
    }
  }

  lemma {:induction false} NoneSetCountsZero(t: seq<bool>)
    requires forall i :: 0 <= i < |t| ==> !t[i]
    ensures CountTrue(t) == 0
    decreases |t|
  {
    if t != [] {
      NoneSetCountsZero(t[1..]);
    }
  }

  /** The last sample's index is the start number plus the number of
      transitions, so the steps are numbered start, start + 1, ... */
  lemma LastStep(transition: seq<bool>, start: int)
    requires |transition| > 0
    ensures AssignStepNumber(transition, start)[|transition| - 1] == start + CountTrue(transition)
  {
    assert transition[..|transition|] == transition;
  }
}
