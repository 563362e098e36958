/** The table the segmentation works on and `process_steps`, which runs
    the three stages for each leg and adds their six columns. */
module Pipeline {
  import opened Series
  import Transition
  import StepNumber
  import Completeness

  /** One column of the table. */
  datatype Column = Ints(ints: seq<int>) | Bools(bools: seq<bool>) | Texts(texts: seq<string>)

  function ColumnLength(c: Column): (n: nat)
  {
    match c
    case Ints(xs) => |xs|
    case Bools(bs) => |bs|
    case Texts(ss) => |ss|
  }

  /** Columns that take part in arithmetic comparisons: integers, and
      booleans read as 0 and 1. */
  predicate IsNumeric(c: Column)
  {
    c.Ints? || c.Bools?
  }

  function Numeric(c: Column): (v: seq<int>)
    requires IsNumeric(c)
    ensures |v| == ColumnLength(c)
    ensures c.Ints? ==> v == c.ints
    ensures c.Bools? ==> forall i :: 0 <= i < |v| ==> v[i] == (if c.bools[i] then 1 else 0)
  {
    match c
    case Ints(xs) => xs
    case Bools(bs) => seq(|bs|, i requires 0 <= i < |bs| => if bs[i] then 1 else 0)
  }

  /** `check_transition` on a position column of any kind: numbers (and
      booleans as 0 and 1) are compared with 0 and the prior codes, text
      never matches either, so only the condition half can fire. */
  function ColumnTransition(pos: Column, cond: seq<string>): (t: seq<bool>)
    requires ColumnLength(pos) == |cond|
    ensures |t| == |cond|
    ensures forall i :: 0 <= i < |t| ==>
      (t[i] <==> (IsNumeric(pos) && Transition.ReturnsToRest(Numeric(pos), Transition.PriorCodes, i))
                 || Transition.BecomesDefined(cond, i))
  {
    if IsNumeric(pos) then Transition.CheckTransition(Numeric(pos), cond, Transition.PriorCodes)
    else Transition.CheckTransitionText(pos.texts, cond, Transition.PriorCodes)
  }

  /** The codes the completeness check reads from a position column: its
      numbers, or nothing from an empty column, which is never read. */
  function Codes(c: Column): (v: seq<int>)
    requires IsNumeric(c) || ColumnLength(c) == 0
    ensures |v| == ColumnLength(c)
    ensures c.Ints? ==> v == c.ints
    ensures c.Bools? ==> forall i :: 0 <= i < |v| ==> v[i] == (if c.bools[i] then 1 else 0)
  {
    if IsNumeric(c) then Numeric(c) else []
  }

  /** What reading the table can raise: a missing column, a condition
      column without text, a position or step column without numbers. */
  datatype Error = KeyError(column: string) | NotText(column: string) | NotNumeric(column: string)

  datatype Result<T> = Success(value: T) | Failure(error: Error)

  const TransitionLeft: string := "transition_left"
  const TransitionRight: string := "transition_right"
  const StepNumberLeft: string := "step_number_l"
  const StepNumberRight: string := "step_number_r"
  const StepCompleteLeft: string := "step_complete_l"
  const StepCompleteRight: string := "step_complete_r"

  /** The working column of the completeness check. */
  const StepCompleteColumn: string := "step_complete"

  /** The six columns `process_steps` adds. */
  const OutputColumns: set<string> :=
    {TransitionLeft, TransitionRight, StepNumberLeft, StepNumberRight, StepCompleteLeft, StepCompleteRight}

  /** The three columns one leg's pipeline produces. */
  datatype LegColumns = LegColumns(transition: seq<bool>, step: seq<int>, complete: seq<bool>)

  /** One leg's pipeline: transitions with the prior codes 1, 2, 3, step
      numbers from 0, and the completeness verdicts. The step index counts
      transitions, never decreases, and every sample of a step carries the
      same verdict. */
  function Leg(pos: seq<int>, cond: seq<string>, boundaryOk: bool): (leg: LegColumns)
    requires |pos| == |cond|
    ensures |leg.transition| == |pos| && |leg.step| == |pos| && |leg.complete| == |pos|
    ensures forall i :: 0 <= i < |pos| ==> leg.step[i] == StepNumber.CountTrue(leg.transition[..i + 1])
    ensures forall i, j :: 0 <= i < |pos| && 0 <= j < |pos| && leg.step[i] == leg.step[j] ==>
      leg.complete[i] == leg.complete[j]
  {
    var t := Transition.CheckTransition(pos, cond, Transition.PriorCodes);
    var s := StepNumber.AssignStepNumber(t, 0);
    LegColumns(t, s, Completeness.StepFlags(s, pos, boundaryOk))
  }

  /** The table with both legs' columns written over it, left before
      right and transitions before step numbers before verdicts. */
  function WithLegs(cols: map<string, Column>, left: LegColumns, right: LegColumns): (out: map<string, Column>)
    ensures out.Keys == cols.Keys + OutputColumns
  {
    cols[TransitionLeft := Bools(left.transition)][TransitionRight := Bools(right.transition)]
      [StepNumberLeft := Ints(left.step)][StepNumberRight := Ints(right.step)]
      [StepCompleteLeft := Bools(left.complete)][StepCompleteRight := Bools(right.complete)]
  }

  /** Writing both legs adds exactly the six output columns, holds each
      leg's three results under that leg's names, and leaves every other
      column (the working column `step_complete` among them) as it was. */
  lemma WithLegsColumns(cols: map<string, Column>, left: LegColumns, right: LegColumns)
    ensures var out := WithLegs(cols, left, right);
      && out.Keys == cols.Keys + OutputColumns
      && out[TransitionLeft] == Bools(left.transition) && out[TransitionRight] == Bools(right.transition)
      && out[StepNumberLeft] == Ints(left.step) && out[StepNumberRight] == Ints(right.step)
      && out[StepCompleteLeft] == Bools(left.complete) && out[StepCompleteRight] == Bools(right.complete)
      && (forall name :: name in cols && name !in OutputColumns ==> out[name] == cols[name])
      && (StepCompleteColumn in out <==> StepCompleteColumn in cols)
  {
  }

  /** Column names that neither one of the six outputs nor the working
      column can overwrite. */
  predicate Separate(left: string, right: string, cond: string)
  {
    left !in OutputColumns + {StepCompleteColumn} && right !in OutputColumns + {StepCompleteColumn}
    && cond !in OutputColumns + {StepCompleteColumn}
  }

  class Frame {
    var rows: nat
    var columns: map<string, Column>

    /** Every column has one entry per row. */
    ghost predicate Valid()
      reads this
    {
      forall name :: name in columns ==> ColumnLength(columns[name]) == rows
    }

    constructor (rows: nat, columns: map<string, Column>)
      requires forall name :: name in columns ==> ColumnLength(columns[name]) == rows
      ensures Valid() && this.rows == rows && this.columns == columns
    {
      this.rows := rows;
      this.columns := columns;
    }

    /** `df.copy()`: a new table with the same columns. */
    method Copy() returns (f: Frame)
      requires Valid()
      ensures fresh(f) && f.Valid() && f.rows == rows && f.columns == columns
    {
      f := new Frame(rows, columns);
    }

    /** `check_step_completeness(df, step_col, pos_col)`: adds the working
        column `step_complete`, all complete, then reads the step column
        and, when there is a row, the position column; on success the
        working column holds each sample's step verdict, and it is also
        returned. */
    method CheckStepCompleteness(stepCol: string, posCol: string, boundaryOk: bool) returns (r: Result<seq<bool>>)
      requires Valid()
      modifies this
      ensures Valid() && rows == old(rows)
      ensures var init := old(columns)[StepCompleteColumn := Bools(seq(old(rows), _ => true))];
        if stepCol !in init then r == Failure(KeyError(stepCol)) && columns == init
        else if !IsNumeric(init[stepCol]) then r == Failure(NotNumeric(stepCol)) && columns == init
        else if rows > 0 && posCol !in init then r == Failure(KeyError(posCol)) && columns == init
        else if rows > 0 && !IsNumeric(init[posCol]) then r == Failure(NotNumeric(posCol)) && columns == init
        else
          var pos := if rows > 0 then Numeric(init[posCol]) else [];
          && r == Success(Completeness.StepFlags(Numeric(init[stepCol]), pos, boundaryOk))
          && columns == init[StepCompleteColumn := Bools(r.value)]
    {
      columns := columns[StepCompleteColumn := Bools(seq(rows, _ => true))];
      if stepCol !in columns {
        return Failure(KeyError(stepCol));
      }
      if !IsNumeric(columns[stepCol]) {
        return Failure(NotNumeric(stepCol));
      }
      var steps := Numeric(columns[stepCol]);
      var pos: seq<int> := [];
      if rows > 0 {
        if posCol !in columns {
          return Failure(KeyError(posCol));
        }
        if !IsNumeric(columns[posCol]) {
          return Failure(NotNumeric(posCol));
        }
        pos := Numeric(columns[posCol]);
      }
      var flags := Completeness.CheckStepCompleteness(steps, pos, boundaryOk);
      columns := columns[StepCompleteColumn := Bools(flags)];
      r := Success(flags);
    }

    /** `df[out] = check_transition(df[posCol], df[cond])`: reads the
        position column, then the condition column, and adds the flags.
        Only the condition column must have a particular kind: text. */
    method AddTransition(out: string, posCol: string, cond: string) returns (r: Result<()>)
      requires Valid()
      modifies this
      ensures Valid() && rows == old(rows)
      ensures
        if posCol !in old(columns) then r == Failure(KeyError(posCol)) && columns == old(columns)
        else if cond !in old(columns) then r == Failure(KeyError(cond)) && columns == old(columns)
        else if !old(columns)[cond].Texts? then r == Failure(NotText(cond)) && columns == old(columns)
        else
          && r == Success(())
          && columns == old(columns)[out := Bools(ColumnTransition(old(columns)[posCol], old(columns)[cond].texts))]
    {
      if posCol !in columns {
        return Failure(KeyError(posCol));
      }
      if cond !in columns {
        return Failure(KeyError(cond));
      }
      if !columns[cond].Texts? {
        return Failure(NotText(cond));
      }
      var t := ColumnTransition(columns[posCol], columns[cond].texts);
      columns := columns[out := Bools(t)];
      r := Success(());
    }

    /** `df[out] = assign_step_number(df[transitionCol], 0)`. */
    method AddStepNumber(out: string, transitionCol: string)
      requires Valid() && transitionCol in columns && columns[transitionCol].Bools?
      modifies this
      ensures Valid() && rows == old(rows)
      ensures columns == old(columns)[out := Ints(StepNumber.AssignStepNumber(old(columns)[transitionCol].bools, 0))]
    {
      columns := columns[out := Ints(StepNumber.AssignStepNumber(columns[transitionCol].bools, 0))];
    }

    /** `df[out] = check_step_completeness(df.copy(), stepCol, posCol)`:
        the working column is written to the copy only, where it also
        replaces a position column of the same name. */
    method AddCompleteness(out: string, stepCol: string, posCol: string, boundaryOk: bool) returns (r: Result<()>)
      requires Valid() && stepCol in columns && columns[stepCol].Ints? && stepCol != StepCompleteColumn
      modifies this
      ensures Valid() && rows == old(rows)
      ensures var init := old(columns)[StepCompleteColumn := Bools(seq(old(rows), _ => true))];
        if rows > 0 && posCol !in init then r == Failure(KeyError(posCol)) && columns == old(columns)
        else if rows > 0 && !IsNumeric(init[posCol]) then r == Failure(NotNumeric(posCol)) && columns == old(columns)
        else
          && r == Success(())
          && columns == old(columns)[out := Bools(Completeness.StepFlags(
               old(columns)[stepCol].ints, if rows > 0 then Numeric(init[posCol]) else [], boundaryOk))]
    {
      var copy := Copy();
      var c := copy.CheckStepCompleteness(stepCol, posCol, boundaryOk);
      if c.Failure? {
        return Failure(c.error);
      }
      columns := columns[out := Bools(c.value)];
      r := Success(());
    }

    /** `process_steps(df, left, right, cond)`: writes the left and right
        transition flags, then the two step-number columns (from 0), then
        the two completeness columns, each computed on a copy so that the
        working column stays out of this table. A missing or ill-typed
        input column raises at the line that first reads it, keeping what
        was written before. Each leg's completeness check looks up its own
        boundary row (before the first row of that leg's step 1), so each
        leg has its own boundary outcome. */
    method ProcessSteps(left: string, right: string, cond: string, boundaryOkLeft: bool, boundaryOkRight: bool) returns (r: Result<()>)
      requires Valid()
      modifies this
      ensures Valid() && rows == old(rows)
      ensures columns.Keys <= old(columns).Keys + OutputColumns
      ensures Separate(left, right, cond) ==>
        if left !in old(columns) then r == Failure(KeyError(left)) && columns == old(columns)
        else if cond !in old(columns) then r == Failure(KeyError(cond)) && columns == old(columns)
        else if !old(columns)[cond].Texts? then r == Failure(NotText(cond)) && columns == old(columns)
        else
          var c := old(columns)[cond].texts;
          var tl := ColumnTransition(old(columns)[left], c);
          if right !in old(columns) then
            r == Failure(KeyError(right)) && columns == old(columns)[TransitionLeft := Bools(tl)]
          else
            var tr := ColumnTransition(old(columns)[right], c);
            var numbered := old(columns)[TransitionLeft := Bools(tl)][TransitionRight := Bools(tr)]
              [StepNumberLeft := Ints(StepNumber.AssignStepNumber(tl, 0))]
              [StepNumberRight := Ints(StepNumber.AssignStepNumber(tr, 0))];
            if rows > 0 && !IsNumeric(old(columns)[left]) then
              r == Failure(NotNumeric(left)) && columns == numbered
            else
              var l := Leg(Codes(old(columns)[left]), c, boundaryOkLeft);
              if rows > 0 && !IsNumeric(old(columns)[right]) then
                r == Failure(NotNumeric(right)) && columns == numbered[StepCompleteLeft := Bools(l.complete)]
              else
                var rt := Leg(Codes(old(columns)[right]), c, boundaryOkRight);
                && r == Success(())
                && columns == WithLegs(old(columns), l, rt)
    {
      OutputNamesDistinct();
      ghost var c0 := columns;
      r := AddTransition(TransitionLeft, left, cond);
      if r.Failure? {
        return;
      }
      ghost var c1 := columns;
      r := AddTransition(TransitionRight, right, cond);
      if r.Failure? {
        return;
      }
      ghost var c2 := columns;
      AddStepNumber(StepNumberLeft, TransitionLeft);
      AddStepNumber(StepNumberRight, TransitionRight);
      ghost var c3 := columns;
      ghost var sep := Separate(left, right, cond);
      if sep {
        assert c1[left] == c0[left] && c1[cond] == c0[cond];
        assert c2[left] == c0[left] && c2[right] == c0[right] && c2[TransitionLeft] == c1[TransitionLeft];
        assert c3[left] == c0[left] && c3[right] == c0[right];
      }
      r := AddCompleteness(StepCompleteLeft, StepNumberLeft, left, boundaryOkLeft);
      if r.Failure? {
        return;
      }
      ghost var l;
      if sep {
        l := Leg(Codes(c0[left]), c0[cond].texts, boundaryOkLeft);
        assert c3[StepNumberLeft] == Ints(l.step);
      }
      ghost var c4 := columns;
      assert sep ==> c4 == c3[StepCompleteLeft := Bools(l.complete)];
      r := AddCompleteness(StepCompleteRight, StepNumberRight, right, boundaryOkRight);
      if r.Failure? {
        return;
      }
      ghost var rt;
      if sep {
        rt := Leg(Codes(c0[right]), c0[cond].texts, boundaryOkRight);
        assert c3[StepNumberRight] == Ints(rt.step);
        assert columns == c4[StepCompleteRight := Bools(rt.complete)];
      }
    }
  }

  /** The six output names and the working column are seven different
      names. */
  lemma OutputNamesDistinct()
    ensures |OutputColumns| == 6 && StepCompleteColumn !in OutputColumns
    ensures TransitionLeft != TransitionRight && StepNumberLeft != StepNumberRight
    ensures StepCompleteLeft != StepCompleteRight
    ensures TransitionLeft !in {StepNumberLeft, StepNumberRight, StepCompleteLeft, StepCompleteRight}
    ensures TransitionRight !in {StepNumberLeft, StepNumberRight, StepCompleteLeft, StepCompleteRight}
    ensures StepNumberLeft !in {StepCompleteLeft, StepCompleteRight}
    ensures StepNumberRight !in {StepCompleteLeft, StepCompleteRight}
  {
  }
}
