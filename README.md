# Gait step segmentation, modelled in Dafny

This project models the step-segmentation core of a gait-analysis helper
module (`assets/helpers.py`). A recording is a table with one row per sample.
Each row holds a left and a right ankle-position code and a condition label,
such as `SM_WALKING` or `transparent_UNDEFINED`. For each leg the module runs
three stages:

1. **Transition detection** (`check_transition`). A sample starts a new step
   when the ankle code returns to 0 from a prior code (1, 2 or 3), or when
   the condition label stops containing `UNDEFINED`.
2. **Step numbering** (`assign_step_number`). The step index of a sample is
   a start number plus the running count of transitions up to and including
   that sample.
3. **Completeness** (`check_step_completeness`). The rows are grouped by
   step index, and every row of a group is marked complete or incomplete
   from the distinct ankle codes of the group. Fewer than three codes is
   incomplete. More than three is complete. Exactly three is complete only
   when the codes first appear as 1, 2, 3 and a boundary row carries an
   undefined condition.

`process_steps` runs the three stages for both legs and adds six columns to
the table. Two small pure pieces come along: the condition-label-to-code
table (`condition_mapping`) and `format_activity`, which turns `STAIRS_UP`
into `Stairs Up`.

Modules, one file each:

- `series.dfy` (`Series`): missing cells, the one-row shift, substring search.
- `labels.dfy` (`Labels`): activities, the condition table, `format_activity`.
- `transition.dfy` (`Transition`): `check_transition`. Its body is the
  source's column arithmetic (`shift`, `isin`, `str.contains`, `&`, `|`,
  `~`). Its contract states the row-by-row meaning.
- `step_number.dfy` (`StepNumber`): `assign_step_number` and the facts
  about the step index.
- `completeness.dfy` (`Completeness`): `check_step_completeness` as a method
  over an array with a loop over the distinct step values. It is proved
  equal to the specification function `StepFlags`, and the lemmas are about
  `StepFlags`.
- `pipeline.dfy` (`Pipeline`): the table as a class `Frame` whose column map
  the methods update in place, and `process_steps` with its error paths.

Two pieces of the source do not run as written, so the model takes them as
parameters:

- At `assets/helpers.py:94`, `isin()` is called without its set of values,
  which raises `TypeError`. The docstring at line 83 names the prior codes
  1, 2 and 3. `CheckTransition` takes the set as a parameter `prior`, and
  `process_steps` uses `PriorCodes = {1, 2, 3}`.
- At `assets/helpers.py:129`, the boundary row is looked up with
  `iloc.name - 1`, which subtracts 1 from a string. That lookup also reads
  the column `condition` by a fixed name rather than `condition_col`. The
  model takes the outcome of that test ("the boundary row's condition
  contains UNDEFINED") as a boolean parameter `boundaryOk`. The lookup
  does not depend on the step being checked: it uses the row before the
  first row of step 1 in the given step column. So `boundaryOk` is one
  value per call of `check_step_completeness`, that is, per leg:
  `process_steps` takes `boundaryOkLeft` for `step_number_l` and
  `boundaryOkRight` for `step_number_r`.

Two facts about the exactly-three test at `assets/helpers.py:129`:

- It compares `unique()`, which lists codes in order of first appearance,
  with `[1, 2, 3]` position by position, not as sets. A step whose codes
  first appear as 2, 1, 3 is incomplete
  (`Completeness.OrderOfCodesMatters`, and `Completeness.StepFlagByCodeCount`
  for any table).
- As written, the boundary lookup `iloc.name - 1` raises `TypeError`, so
  every step with exactly three distinct codes aborts the check. Once that
  lookup is repaired, the `~` on a Python bool makes the test mark every
  such step incomplete (see Findings). The model keeps the evidently
  intended test and shows that `boundaryOk = false` reproduces the `~`
  behaviour.

A position column may hold text. Comparing text with 0 and with the prior
codes gives false without raising, so `check_transition` then flags only
the samples where the condition becomes defined
(`Transition.CheckTransitionText`).

## Model

| member | source | states |
|---|---|---|
| `Series.Shift` | assets/helpers.py:94-95 | `shift(1)` keeps the length, leaves row 0 without a value and gives row i the value of row i-1 |
| `Series.Contains` | assets/helpers.py:95 | a found pattern is no longer than the label, and the empty pattern is always found |
| `Series.ContainsIff` | assets/helpers.py:95 | the substring test used for `str.contains("UNDEFINED")` is true exactly when the pattern occurs at some offset of the label |
| `Series.ContainsNotLonger` | assets/helpers.py:95 | a label shorter than the pattern never contains it |
| `Labels.ConditionMapping` | assets/helpers.py:31-44 | the twelve entries of `condition_mapping`, in source order; what they hold is stated by `Labels.ConditionCodeOfLabel` and `Labels.ConditionMappingDomain` |
| `Labels.ConditionCodeOfLabel` | assets/helpers.py:31-44 | every regime/activity label is a key of `condition_mapping`, and its code is the activity's enumeration value, except that UNDEFINED has code 0 |
| `Labels.TransparentCode` | assets/helpers.py:31-44 | every `transparent_X` label is a key of the table with the code of activity X (0 for UNDEFINED) |
| `Labels.SMCode` | assets/helpers.py:31-44 | every `SM_X` label is a key of the table with the code of activity X (0 for UNDEFINED) |
| `Labels.RegimesAgree` | assets/helpers.py:31-44 | `transparent_X` and `SM_X` have the same code for every activity X |
| `Labels.ConditionMappingDomain` | assets/helpers.py:31-44 | every key of the table is a regime/activity label carrying its activity's code, so every code is in 0..5 and every `*_UNDEFINED` key maps to 0 |
| `Labels.TitleAt` | assets/helpers.py:74 | `str.title()` keeps the length, keeps uncased characters, and upper-cases a letter exactly when the character before it is not a letter, lower-casing it otherwise |
| `Labels.TitleLength` | assets/helpers.py:74 | `str.title()` keeps the length |
| `Labels.FormatActivity` | assets/helpers.py:59-76 | the formatted name has the input's length and contains no `_` |
| `Labels.TitleAddsNoUnderscore` | assets/helpers.py:74 | `str.title()` keeps the length and adds no `_` to a string without one |
| `Labels.FormatActivityAt` | assets/helpers.py:59-76 | at each position of the formatted name: `_` has become a space, a letter starting a word is upper-case, any other letter lower-case, and other characters are unchanged |
| `Labels.FormatActivitySpec` | assets/helpers.py:59-76 | the formatted name has the input's length and no `_`; `_` becomes a space, word starts are upper-case, other letters lower-case, other characters unchanged |
| `Labels.FormatActivityIdempotent` | assets/helpers.py:70-76 | formatting an already formatted name changes nothing |
| `Labels.FormatActivityExample` | assets/helpers.py:64-67 | `STAIRS_UP` becomes `Stairs Up`, as the docstring describes |
| `Transition.CheckTransition` | assets/helpers.py:81-95 | one flag per sample; flag i holds iff (i > 0, pos[i] = 0 and pos[i-1] is a prior code) or (i > 0, cond[i-1] contains UNDEFINED and cond[i] does not); flag 0 is false; empty input gives empty output |
| `Transition.CheckTransitionText` | assets/helpers.py:93-95 | on a text position column, `== 0` and `isin` are false everywhere, so flag i holds iff i > 0, cond[i-1] contains UNDEFINED and cond[i] does not |
| `Transition.TextPositionsNeverReturn` | assets/helpers.py:93-95 | text positions give the same flags as integer positions that are never 0 |
| `Transition.TransitionAppend` | assets/helpers.py:93-95 | appending a sample keeps every earlier flag and adds the flag computed from the last two samples, so a flag depends only on its sample and the one before |
| `Transition.ReturnToRestExample` | assets/helpers.py:82-83 | positions 1, 2, 3, 0 give flags false, false, false, true with prior codes {1, 2, 3} |
| `Transition.BecomesDefinedExample` | assets/helpers.py:84 | labels `X_UNDEFINED`, `X_WALKING` with an unmoving ankle give flags false, true |
| `StepNumber.RunningSum` | assets/helpers.py:109 | `cumsum` on flags: entry i is the starting total plus the number of set flags among the first i+1 |
| `StepNumber.AssignStepNumber` | assets/helpers.py:98-109 | same length as the flags; step[i] = start + number of transitions in flags[0..i] |
| `StepNumber.CountTrueSnoc` | assets/helpers.py:109 | one more flag adds 1 to the count when set and 0 otherwise |
| `StepNumber.StepIncrement` | assets/helpers.py:109 | consecutive step indices differ by 1 at a transition and by 0 elsewhere |
| `StepNumber.StepMonotone` | assets/helpers.py:109 | the step index never decreases |
| `StepNumber.StepsContiguous` | assets/helpers.py:109 | the samples of one step form a contiguous run |
| `StepNumber.FirstStep` | assets/helpers.py:109 | step[0] = start, plus 1 when sample 0 is a transition |
| `StepNumber.NoTransitionKeepsStart` | assets/helpers.py:109 | with no transitions every step index equals the start number |
| `StepNumber.NoneSetCountsZero` | assets/helpers.py:109 | no set flag means a count of 0 |
| `StepNumber.LastStep` | assets/helpers.py:109 | the last index is the start number plus the number of transitions |
| `Completeness.FirstIndex` | assets/helpers.py:129 | the index returned holds the value, and the value does not occur before it |
| `Completeness.Distinct` | assets/helpers.py:125 | `unique()` holds exactly the values of its input, each once |
| `Completeness.DistinctOrder` | assets/helpers.py:129 | `unique()` lists values in the order of their first appearance |
| `Completeness.FirstIndexPrefix` | assets/helpers.py:129 | extending a sequence does not move the first occurrence of a value it already holds |
| `Completeness.NoDuplicatesCount` | assets/helpers.py:126 | a sequence without repetition has as many distinct values as entries |
| `Completeness.DistinctCount` | assets/helpers.py:126-128 | `nunique()`, the length of `unique()`, is the number of distinct values |
| `Completeness.StepRows` | assets/helpers.py:126 | the rows selected by `df[step_col] == step`: strictly increasing row numbers, each of that step, and every row of that step among them |
| `Completeness.GroupCodes` | assets/helpers.py:126 | the codes selected for a step are exactly the position codes of the rows with that step index |
| `Completeness.GroupCodesInRowOrder` | assets/helpers.py:126-129 | the selected codes come in row order: entry k is the position code of the step's k-th row, which fixes the order `unique()` sees |
| `Completeness.MarksIncomplete` | assets/helpers.py:129 | the intended exactly-three test lets a step through exactly when its codes first appear as 1, 2, 3 and the boundary row is undefined |
| `Completeness.MarksIncompleteAsWritten` | assets/helpers.py:129 | the test as written, once the boundary lookup is repaired: always true, because `~` on a Python bool is -1 or -2 and the `|` stays non-zero |
| `Completeness.AsWrittenAlwaysMarks` | assets/helpers.py:129-130 | as written, once the boundary lookup is repaired, the exactly-three test fires for every input, which is the intended test with the boundary row taken to fail |
| `Completeness.AsWrittenDiffers` | assets/helpers.py:129 | once the boundary lookup is repaired, codes first seen as 1, 2, 3 with an undefined boundary row are marked incomplete as written but not by the intended test |
| `Completeness.StepFlags` | assets/helpers.py:124-131 | one flag per row; a row flagged complete belongs to a step with at least three distinct codes |
| `Completeness.CheckStepCompleteness` | assets/helpers.py:112-131 | starting from all-complete and overwriting group by group, every row ends with the verdict of its own step (`StepFlags`) |
| `Completeness.SameStepSameFlag` | assets/helpers.py:126-130 | one flag per row, and rows with the same step index carry the same flag |
| `Completeness.StepFlagByCodeCount` | assets/helpers.py:124-130 | with n distinct codes in the step: n < 3 gives incomplete, n > 3 complete, and n = 3 complete iff the codes first appear as 1, 2, 3 and `boundaryOk`, which needs the set {1, 2, 3} |
| `Completeness.OneStepGroupCodes` | assets/helpers.py:126 | when every row is in one step, that step's codes are the whole position column |
| `Completeness.OrderOfCodesMatters` | assets/helpers.py:129 | in a one-step table with codes 2, 1, 3, every row is incomplete even with an undefined boundary row |
| `Completeness.BoundaryException` | assets/helpers.py:128-130 | in a one-step table with codes 1, 2, 3, every row is complete exactly when `boundaryOk` holds |
| `Completeness.ThreeOtherCodesIncomplete` | assets/helpers.py:128-130 | in a one-step table with codes 1, 2, 4, every row is incomplete whatever the boundary row |
| `Completeness.FourCodesComplete` | assets/helpers.py:124-128 | in a one-step table with codes 1, 2, 3, 4, every row keeps the default of complete |
| `Pipeline.Numeric` | assets/helpers.py:94 | reading a numeric column keeps its length, integers as they are and booleans as 0 and 1 |
| `Pipeline.ColumnTransition` | assets/helpers.py:93-95 | on a position column of any kind, flag i holds iff the column is numeric and the ankle returns to rest from 1, 2 or 3 at i, or the condition becomes defined at i |
| `Pipeline.Codes` | assets/helpers.py:126 | the codes read from a position column are its integers as they are and its booleans as 0 and 1, one per row; an empty column of any kind gives none |
| `Pipeline.Leg` | assets/helpers.py:148-155 | one leg's three columns have one entry per row; the step index counts transitions from 0; rows of one step share their verdict |
| `Pipeline.WithLegs` | assets/helpers.py:148-155 | writing both legs leaves the table with exactly its old columns plus the six outputs |
| `Pipeline.WithLegsColumns` | assets/helpers.py:148-157 | writing both legs adds exactly the six output columns with each leg's results, and every other column, `step_complete` included, is unchanged |
| `Pipeline.OutputNamesDistinct` | assets/helpers.py:148-155 | the six output names and `step_complete` are seven different names |
| `Pipeline.Frame.constructor` | assets/helpers.py:134 | a table whose columns all have one entry per row |
| `Pipeline.Frame.Copy` | assets/helpers.py:154-155 | `df.copy()` is a fresh table with the same rows and columns |
| `Pipeline.Frame.CheckStepCompleteness` | assets/helpers.py:112-131 | writes the all-complete working column first; a missing step column (or, with rows, a missing position column) raises and keeps that write; otherwise the working column and the result are the per-step verdicts |
| `Pipeline.Frame.AddTransition` | assets/helpers.py:148-149 | reads the position column, then the condition column, raising on a missing one or a condition column without text, with the table unchanged; otherwise adds the flags of `ColumnTransition` with prior codes 1, 2, 3, for a position column of any kind |
| `Pipeline.Frame.AddStepNumber` | assets/helpers.py:151-152 | adds the step numbers computed from 0 from a transition column |
| `Pipeline.Frame.AddCompleteness` | assets/helpers.py:154-155 | computes the verdicts on a copy and adds only the result column, so the working column never reaches this table; a missing position column (with rows) raises with the table unchanged |
| `Pipeline.Frame.ProcessSteps` | assets/helpers.py:134-157 | adds only output columns; for separate input names, raises at the line that first fails (a missing column, a condition column without text at the transitions, a non-numeric position column at the completeness check) keeping earlier writes, and on success holds exactly the old columns plus each leg's three results, each leg computed from its own position column, the condition column and its own boundary outcome |

## Left out

- Plot configuration (`order`, the seaborn palettes and `color_mapping`,
  assets/helpers.py:46-57) is styling for an external plotting library with
  no logic.
- The enumerations `GaitState`, `Leg` and `JointName` (assets/helpers.py:12-28)
  are constants without behaviour. `Activity` is modelled as a datatype
  because the condition table follows its values.
- The boundary-row lookup at assets/helpers.py:129 is the parameter
  `boundaryOk`. The `TypeError` it raises and the fixed column name
  `condition` it reads are not modelled.
- The missing argument of `isin()` at assets/helpers.py:94 is the parameter
  `prior`. The `TypeError` it raises is not modelled.
- Missing values in the input columns, floating-point codes and the pandas
  index (alignment of series by index labels) are not modelled. The only
  missing value is the first row of a shifted column.
- `str.contains` is a regular-expression search. Its pattern `UNDEFINED` has
  no metacharacters, so it is modelled as a plain substring search.
- `str.title()` is modelled for ASCII letters only; other letters are
  treated as uncased.
- Pipeline.Frame.CheckStepCompleteness: a text-valued step or position column
  raises `NotNumeric`, whereas pandas would compare the texts. Boolean
  columns are read as 0 and 1, as pandas does.
- Pipeline.Frame.AddCompleteness: inherits that deviation: a text-valued
  position column (with rows) raises `NotNumeric` instead of giving verdicts.
- Pipeline.Frame.ProcessSteps: inherits it too: a text-valued left or right
  position column passes the transition and step-number stages and then
  raises `NotNumeric` at that leg's completeness check, keeping the columns
  written before.
- Pipeline.Frame.ProcessSteps: when an input column name is one of the six
  output names or `step_complete`, the contract states only that no
  column other than the outputs appears; the body still performs the
  source's reads and writes in order.
- Pipeline.Frame.CheckStepCompleteness reads the step and position columns
  once, after writing the working column. The source reads them again in
  every pass of its loop. This gives the same result, because a step's rows
  are written only in that step's own pass.
- Exceptions are `Failure` results. A write made before the failing line
  stays in the table, as it does in the source.

## Findings

| source | as written | input that shows it | evidently intended | confidence | as-written member | corrected member |
|---|---|---|---|---|---|---|
| assets/helpers.py:129 | `~("UNDEFINED" in ...)` applies Python's integer `~` to a bool and gives -1 or -2, so once the boundary lookup (`iloc.name - 1`, which raises `TypeError` as written) is repaired, the `|` is always a non-zero integer and every step with exactly three codes is marked incomplete | a step whose codes first appear as 1, 2, 3 whose boundary row's condition contains UNDEFINED | mark the step incomplete unless the codes first appear as 1, 2, 3 and the boundary row is undefined | high (not executed) | `Completeness.MarksIncompleteAsWritten`, `Completeness.AsWrittenDiffers` | `Completeness.MarksIncomplete`, `Completeness.BoundaryException` |
