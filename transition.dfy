/** Stage 1 of the step segmentation: flag the samples where a new step
    starts. The source writes this as column arithmetic; the body below
    follows that form and the contract states what it means row by row. */
module Transition {
  import opened Series

  /** The marker of a condition label whose activity is not yet defined. */
  const UndefinedMarker: string := "UNDEFINED"

  /** The ankle codes a return to code 0 must come from for a step to
      start: the prior phases 1, 2 and 3. */
  const PriorCodes: set<int> := {1, 2, 3}

  /** `column == 0`, element-wise. */
  function EqualsZero(s: seq<int>): (r: seq<bool>)
  {
    seq(|s|, i requires 0 <= i < |s| => s[i] == 0)
  }

  /** `column.isin(values)`, element-wise; a missing value is in no set. */
  function IsIn(s: seq<Option<int>>, values: set<int>): (r: seq<bool>)
  {
    seq(|s|, i requires 0 <= i < |s| => s[i].Some? && s[i].value in values)
  }

  /** `column.str.contains(p)` on a column without missing values. */
  function StrContains(s: seq<string>, p: string): (r: seq<bool>)
  {
    seq(|s|, i requires 0 <= i < |s| => Contains(s[i], p))
  }

  /** `column.str.contains(p)` on a shifted column: a missing value stays
      missing. */
  function StrContainsMissing(s: seq<Option<string>>, p: string): (r: seq<Option<bool>>)
  {
    seq(|s|, i requires 0 <= i < |s| => if s[i].Some? then Some(Contains(s[i].value, p)) else None)
  }

  /** `a & b` where `a` may hold missing values, which count as false. */
  function AndMissing(a: seq<Option<bool>>, b: seq<bool>): (r: seq<bool>)
    requires |a| == |b|
  {
    seq(|a|, i requires 0 <= i < |a| => a[i] == Some(true) && b[i])
  }

  function And(a: seq<bool>, b: seq<bool>): (r: seq<bool>)
    requires |a| == |b|
  {
    seq(|a|, i requires 0 <= i < |a| => a[i] && b[i])
  }

  function Or(a: seq<bool>, b: seq<bool>): (r: seq<bool>)
    requires |a| == |b|
  {
    seq(|a|, i requires 0 <= i < |a| => a[i] || b[i])
  }

  function Not(a: seq<bool>): (r: seq<bool>)
  {
    seq(|a|, i requires 0 <= i < |a| => !a[i])
  }

  /** The ankle returned to code 0 from one of the `prior` codes at sample
      `i`. */
  predicate ReturnsToRest(pos: seq<int>, prior: set<int>, i: int)
    requires 0 <= i < |pos|
  {
    i > 0 && pos[i] == 0 && pos[i - 1] in prior
  }

  /** The condition label became defined at sample `i`: the previous label
      contains "UNDEFINED" and this one does not. */
  predicate BecomesDefined(cond: seq<string>, i: int)
    requires 0 <= i < |cond|
  {
    i > 0 && Contains(cond[i - 1], UndefinedMarker) && !Contains(cond[i], UndefinedMarker)
  }

  /** `check_transition`: one flag per sample, set exactly where the ankle
      returns to rest from a prior code or the condition becomes defined.
      The first sample has no predecessor and is never a transition, and
      empty columns give an empty result. */
  function CheckTransition(pos: seq<int>, cond: seq<string>, prior: set<int>): (t: seq<bool>)
    requires |pos| == |cond|
    ensures |t| == |pos|
    ensures |t| > 0 ==> !t[0]
    ensures forall i :: 0 <= i < |t| ==> (t[i] <==> ReturnsToRest(pos, prior, i) || BecomesDefined(cond, i))
  {
    Or(And(EqualsZero(pos), IsIn(Shift(pos), prior)),
       AndMissing(StrContainsMissing(Shift(cond), UndefinedMarker), Not(StrContains(cond, UndefinedMarker))))
  }

  /** `column == 0` on a text column: a string never equals the number 0. */
  function TextEqualsZero(s: seq<string>): (r: seq<bool>)
  {
    seq(|s|, _ => false)
  }

  /** `column.isin(values)` on a shifted text column: a string is not one
      of the integer codes, and a missing value is in no set. */
  function TextIsIn(s: seq<Option<string>>, values: set<int>): (r: seq<bool>)
  {
    seq(|s|, _ => false)
  }

  /** `check_transition` on a text-valued position column. The position
      half compares without raising and is false everywhere, so a sample
      is a transition exactly when the condition becomes defined there. */
  function CheckTransitionText(pos: seq<string>, cond: seq<string>, prior: set<int>): (t: seq<bool>)
    requires |pos| == |cond|
    ensures |t| == |pos|
    ensures forall i :: 0 <= i < |t| ==> (t[i] <==> BecomesDefined(cond, i))
  {
    Or(And(TextEqualsZero(pos), TextIsIn(Shift(pos), prior)),
       AndMissing(StrContainsMissing(Shift(cond), UndefinedMarker), Not(StrContains(cond, UndefinedMarker))))
  }

  /** Text positions act like integer positions that never return to rest
      from a prior code: both give the condition's flags. */
  lemma TextPositionsNeverReturn(text: seq<string>, pos: seq<int>, cond: seq<string>, prior: set<int>)
    requires |text| == |pos| == |cond|
    requires forall i :: 0 <= i < |pos| ==> pos[i] != 0
    ensures CheckTransitionText(text, cond, prior) == CheckTransition(pos, cond, prior)
  {
  }

  /** A flag depends only on its own sample and the one before: appending
      a sample leaves the earlier flags as they were and adds one flag. */
  lemma TransitionAppend(pos: seq<int>, cond: seq<string>, prior: set<int>, p: int, c: string)
    requires |pos| == |cond|
    ensures CheckTransition(pos + [p], cond + [c], prior)
      == CheckTransition(pos, cond, prior)
         + [|pos| > 0 && ((p == 0 && pos[|pos| - 1] in prior)
              || (Contains(cond[|cond| - 1], UndefinedMarker) && !Contains(c, UndefinedMarker)))]
  {
  }

  /** Flags with the source's prior codes: a sample is a transition when
      the ankle goes from code 1, 2 or 3 to code 0. */
  lemma ReturnToRestExample()
    ensures CheckTransition([1, 2, 3, 0], ["a", "a", "a", "a"], PriorCodes) == [false, false, false, true]
  {
  }

  /** A label that stops containing "UNDEFINED" starts a step even when the
      ankle does not move. */
  lemma BecomesDefinedExample()
    ensures CheckTransition([1, 1], ["X_UNDEFINED", "X_WALKING"], PriorCodes) == [false, true]
  {
    var cond := ["X_UNDEFINED", "X_WALKING"];
    ContainsIff(cond[0], UndefinedMarker);
    assert OccursAt(cond[0], UndefinedMarker, 2);
    ContainsNotLonger(cond[1][1..], UndefinedMarker);
    assert cond[1][..|UndefinedMarker|][0] != UndefinedMarker[0];
  }
}
