/** Stage 3 of the step segmentation: decide, step by step, whether a step
    visited enough distinct ankle codes to count as complete, and broadcast
    the verdict to every sample of the step. */
module Completeness {

  /** The values of `s`. */
  ghost function Elements(s: seq<int>): set<int>
  {
    set x | x in s
  }

  ghost predicate NoDuplicates(s: seq<int>)
  {
    forall i, j :: 0 <= i < j < |s| ==> s[i] != s[j]
  }

  /** The index of the first occurrence of `x` in `s`. */
  function FirstIndex(s: seq<int>, x: int): (k: nat)
    requires x in s
    ensures k < |s| && s[k] == x && x !in s[..k]
  {
    if s[0] == x then 0 else 1 + FirstIndex(s[1..], x)
  }

  /** `Series.unique()`: every value once, in order of first appearance.
      It holds exactly the values of `s`, without repetition. */
  function Distinct(s: seq<int>): (d: seq<int>)
    ensures forall x :: x in d <==> x in s
    ensures NoDuplicates(d)
    decreases |s|
  {
    if s == [] then []
    else
      var init := s[..|s| - 1];
      assert s == init + [s[|s| - 1]];
      var d := Distinct(init);
      if s[|s| - 1] in d then d else d + [s[|s| - 1]]
  }

  /** The values of `Distinct(s)` come in the order in which they first
      appear in `s`. */
  lemma {:induction false} DistinctOrder(s: seq<int>, j: int, k: int)
    requires 0 <= j < k < |Distinct(s)|
    ensures FirstIndex(s, Distinct(s)[j]) < FirstIndex(s, Distinct(s)[k])
    decreases |s|
  {
    var init := s[..|s| - 1];
    var d := Distinct(init);
    var x, y := Distinct(s)[j], Distinct(s)[k];
    assert s == init + [s[|s| - 1]];
    if k < |d| {
      DistinctOrder(init, j, k);
      FirstIndexPrefix(init, s, x);
      FirstIndexPrefix(init, s, y);
    } else {
      FirstIndexPrefix(init, s, x);
      assert y == s[|s| - 1] && y !in init;
      assert forall f :: 0 <= f < |s| - 1 ==> s[f] == init[f];
    }
  }

  /** Extending a sequence does not move the first occurrence of a value
      it already holds. */
  lemma FirstIndexPrefix(p: seq<int>, s: seq<int>, x: int)
    requires x in p && p <= s
    ensures FirstIndex(s, x) == FirstIndex(p, x)
    decreases |p|
  {
  }

  /** A sequence without repetition has as many values as elements. */
  lemma {:induction false} NoDuplicatesCount(s: seq<int>)
    requires NoDuplicates(s)
    ensures |Elements(s)| == |s|
    decreases |s|
  {
    if s != [] {
      var init := s[..|s| - 1];
      assert Elements(s) == Elements(init) + {s[|s| - 1]};
      assert s[|s| - 1] !in Elements(init);
      NoDuplicatesCount(init);
    }
  }

  /** `nunique()`: the number of entries of `unique()` is the number of
      distinct values. */
  lemma DistinctCount(s: seq<int>)
    ensures |Distinct(s)| == |Elements(s)|
  {
    NoDuplicatesCount(Distinct(s));
    assert Elements(Distinct(s)) == Elements(s);
  }

  /** The rows of one step, in increasing order: the row selection
      `df[df[step_col] == step]`. */
  function StepRows(steps: seq<int>, step: int): (idx: seq<nat>)
    ensures forall k :: 0 <= k < |idx| ==> idx[k] < |steps| && steps[idx[k]] == step
    ensures forall k, l :: 0 <= k < l < |idx| ==> idx[k] < idx[l]
    ensures forall i :: 0 <= i < |steps| && steps[i] == step ==> i in idx
    decreases |steps|
  {
    if steps == [] then []
    else
      var n := |steps| - 1;
      var rest := StepRows(steps[..n], step);
      assert forall i :: 0 <= i < n ==> steps[..n][i] == steps[i];
      if steps[n] == step then rest + [n] else rest
  }

  /** `df[df[step_col] == step][pos_col]`: the ankle codes of the samples
      of one step, in sample order. */
  function GroupCodes(steps: seq<int>, pos: seq<int>, step: int): (codes: seq<int>)
    requires |steps| == |pos|
    ensures forall x :: x in codes <==> exists i :: 0 <= i < |steps| && steps[i] == step && pos[i] == x
    decreases |steps|
  {
    if steps == [] then []
    else
      var n := |steps| - 1;
      var rest := GroupCodes(steps[..n], pos[..n], step);
      assert forall i :: 0 <= i < n ==> steps[..n][i] == steps[i] && pos[..n][i] == pos[i];
      if steps[n] == step then rest + [pos[n]] else rest
  }

  /** The codes of a step come in row order: entry k is the code of the
      step's k-th row. */
  lemma {:induction false} GroupCodesInRowOrder(steps: seq<int>, pos: seq<int>, step: int)
    requires |steps| == |pos|
    ensures |GroupCodes(steps, pos, step)| == |StepRows(steps, step)|
    ensures forall k :: 0 <= k < |StepRows(steps, step)| ==>
      GroupCodes(steps, pos, step)[k] == pos[StepRows(steps, step)[k]]
    decreases |steps|
  {
    if steps != [] {
      var n := |steps| - 1;
      GroupCodesInRowOrder(steps[..n], pos[..n], step);
    }
  }

  /** The exactly-three-codes test as intended: the codes must first appear
      as 1, 2, 3 and the boundary row must carry an undefined condition. */
  predicate MarksIncomplete(uniq: seq<int>, boundaryOk: bool): (marks: bool)
    ensures !marks <==> uniq == [1, 2, 3] && boundaryOk
    ensures !marks ==> |uniq| == 3 && uniq[0] == 1
  {
    !(uniq == [1, 2, 3]) || !boundaryOk
  }

  /** Python's `~` on a `bool`: the integer complement, -1 for `False` and
      -2 for `True`. */
  function BoolInvert(b: bool): (n: int)
  {
    if b then -2 else -1
  }

  /** `a | y` for a NumPy boolean `a` and a Python integer `y`: the bitwise
      or of 0 or 1 with `y` in two's complement. */
  function BoolOrInt(a: bool, y: int): (n: int)
  {
    if a && y % 2 == 0 then y + 1 else y
  }

  /** The exactly-three-codes test as written, once the boundary lookup
      (which raises `TypeError` as written) is repaired: NumPy's `~` negates
      the order test, but Python's `~` turns the boundary test into -1 or
      -2, so the `|` is a non-zero integer and the test always fires. */
  predicate MarksIncompleteAsWritten(uniq: seq<int>, boundaryOk: bool): (marks: bool)
    ensures marks
  {
    BoolOrInt(!(uniq == [1, 2, 3]), BoolInvert(boundaryOk)) != 0
  }

  /** As written, once the boundary lookup is repaired, a step with
      exactly three codes is incomplete whatever its codes and boundary
      row; the test agrees with the intended one only when the boundary row
      is taken to fail. */
  lemma AsWrittenAlwaysMarks(uniq: seq<int>, boundaryOk: bool)
    ensures MarksIncompleteAsWritten(uniq, boundaryOk)
    ensures MarksIncompleteAsWritten(uniq, boundaryOk) == MarksIncomplete(uniq, false)
  {
  }

  /** The input that shows the difference, once the boundary lookup is
      repaired: codes first seen as 1, 2, 3 and an undefined boundary row. */
  lemma AsWrittenDiffers()
    ensures MarksIncompleteAsWritten([1, 2, 3], true) && !MarksIncomplete([1, 2, 3], true)
  {
  }

  /** Lines 126-130 for one step whose distinct codes, in order of first
      appearance, are `uniq`: fewer than three codes is incomplete, exactly
      three is complete only as 1, 2, 3 with the boundary row, more than
      three keeps the default of complete. */
  predicate GroupComplete(uniq: seq<int>, boundaryOk: bool)
  {
    if |uniq| < 3 then false
    else if |uniq| == 3 then !MarksIncomplete(uniq, boundaryOk)
    else true
  }

  /** `check_step_completeness` as a specification: each sample gets the
      verdict of its own step. */
  function StepFlags(steps: seq<int>, pos: seq<int>, boundaryOk: bool): (flags: seq<bool>)
    requires |steps| == |pos|
    ensures |flags| == |steps|
    ensures forall i :: 0 <= i < |flags| && flags[i] ==> |Distinct(GroupCodes(steps, pos, steps[i]))| >= 3
  {
    seq(|steps|, i requires 0 <= i < |steps| =>
      GroupComplete(Distinct(GroupCodes(steps, pos, steps[i])), boundaryOk))
  }

  /** `check_step_completeness`: the working column starts as all complete,
      and each step, taken in order of first appearance, overwrites its own
      rows with incomplete when its codes fall short. */
  method CheckStepCompleteness(steps: seq<int>, pos: seq<int>, boundaryOk: bool) returns (flags: seq<bool>)
    requires |steps| == |pos|
    ensures flags == StepFlags(steps, pos, boundaryOk)
  {
    var complete := new bool[|steps|](_ => true);
    var groups := Distinct(steps);
    var k := 0;
    while k < |groups|
      invariant 0 <= k <= |groups|
      invariant forall i :: 0 <= i < complete.Length ==>
        complete[i] == (steps[i] !in groups[..k] || GroupComplete(Distinct(GroupCodes(steps, pos, steps[i])), boundaryOk))
    {
      var step := groups[k];
      var uniq := Distinct(GroupCodes(steps, pos, step));
      if |uniq| < 3 {
        forall i | 0 <= i < complete.Length && steps[i] == step {
          complete[i] := false;
        }
      } else if |uniq| == 3 {
        if MarksIncomplete(uniq, boundaryOk) {
          forall i | 0 <= i < complete.Length && steps[i] == step {
            complete[i] := false;
          }
        }
      }
      assert groups[..k + 1] == groups[..k] + [step];
      k := k + 1;
    }
    assert groups[..k] == groups;
    flags := complete[..];
  }

  /** The verdict is a property of the step: samples of one step share it. */
  lemma SameStepSameFlag(steps: seq<int>, pos: seq<int>, boundaryOk: bool, i: int, j: int)
    requires |steps| == |pos|
    requires 0 <= i < |steps| && 0 <= j < |steps| && steps[i] == steps[j]
    ensures |StepFlags(steps, pos, boundaryOk)| == |steps|
    ensures StepFlags(steps, pos, boundaryOk)[i] == StepFlags(steps, pos, boundaryOk)[j]
  {
  }

  /** The ankle codes seen in the step of sample `i`. */
  ghost function StepCodes(steps: seq<int>, pos: seq<int>, i: int): set<int>
    requires |steps| == |pos| && 0 <= i < |steps|
  {
    set j | 0 <= j < |steps| && steps[j] == steps[i] :: pos[j]
  }

  /** The verdict in terms of the set of codes a step visits: fewer than
      three is incomplete, more than three is complete, and exactly three
      is complete only when they first appear as 1, 2, 3 and the boundary
      row is undefined, which needs the set to be {1, 2, 3}. */
  lemma StepFlagByCodeCount(steps: seq<int>, pos: seq<int>, boundaryOk: bool, i: int)
    requires |steps| == |pos| && 0 <= i < |steps|
    ensures var flag := StepFlags(steps, pos, boundaryOk)[i];
      var n := |StepCodes(steps, pos, i)|;
      && (n < 3 ==> !flag)
      && (n > 3 ==> flag)
      && (n == 3 ==> (flag <==> Distinct(GroupCodes(steps, pos, steps[i])) == [1, 2, 3] && boundaryOk))
      && (flag && n == 3 ==> StepCodes(steps, pos, i) == {1, 2, 3})
  {
    var codes := GroupCodes(steps, pos, steps[i]);
    DistinctCount(codes);
    assert Elements(codes) == StepCodes(steps, pos, i);
    var d := Distinct(codes);
    if d == [1, 2, 3] {
      assert Elements(d) == {1, 2, 3};
    }
  }

  /** When every sample belongs to one step, that step's codes are all the
      codes. */
  lemma {:induction false} OneStepGroupCodes(steps: seq<int>, pos: seq<int>, step: int)
    requires |steps| == |pos|
    requires forall i :: 0 <= i < |steps| ==> steps[i] == step
    ensures GroupCodes(steps, pos, step) == pos
    decreases |steps|
  {
    if steps != [] {
      var n := |steps| - 1;
      OneStepGroupCodes(steps[..n], pos[..n], step);
      assert pos[..n] + [pos[n]] == pos;
    }
  }

  /** Codes first seen as 2, 1, 3 make an incomplete step even though the
      step visits {1, 2, 3}: the test compares `unique()` with [1, 2, 3]
      position by position. */
  lemma OrderOfCodesMatters()
    ensures StepFlags([0, 0, 0], [2, 1, 3], true) == [false, false, false]
  {
    OneStepGroupCodes([0, 0, 0], [2, 1, 3], 0);
    assert [2, 1, 3][..2] == [2, 1] && [2, 1][..1] == [2];
    assert Distinct([2, 1, 3]) == [2, 1, 3];
  }

  /** Codes first seen as 1, 2, 3 make a complete step exactly when the
      boundary row is undefined. */
  lemma BoundaryException(boundaryOk: bool)
    ensures StepFlags([0, 0, 0], [1, 2, 3], boundaryOk) == [boundaryOk, boundaryOk, boundaryOk]
  {
    OneStepGroupCodes([0, 0, 0], [1, 2, 3], 0);
    assert [1, 2, 3][..2] == [1, 2] && [1, 2][..1] == [1];
    assert Distinct([1, 2, 3]) == [1, 2, 3];
  }

  /** A step visiting {1, 2, 4} is incomplete whatever the boundary row. */
  lemma ThreeOtherCodesIncomplete(boundaryOk: bool)
    ensures StepFlags([5, 5, 5], [1, 2, 4], boundaryOk) == [false, false, false]
  {
    OneStepGroupCodes([5, 5, 5], [1, 2, 4], 5);
    assert [1, 2, 4][..2] == [1, 2] && [1, 2][..1] == [1];
    assert Distinct([1, 2, 4]) == [1, 2, 4];
  }

  /** A step visiting {1, 2, 3, 4} is complete whatever the boundary row. */
  lemma FourCodesComplete(boundaryOk: bool)
    ensures StepFlags([5, 5, 5, 5], [1, 2, 3, 4], boundaryOk) == [true, true, true, true]
  {
    OneStepGroupCodes([5, 5, 5, 5], [1, 2, 3, 4], 5);
    assert [1, 2, 3, 4][..3] == [1, 2, 3] && [1, 2, 3][..2] == [1, 2] && [1, 2][..1] == [1];
    assert Distinct([1, 2, 3, 4]) == [1, 2, 3, 4];
  }
}
