/** Label vocabulary: activities, the condition-label-to-code table and the
    activity-name formatter used by reporting. */
module Labels {

  /** The activities of an experiment, with their enumeration values. */
  datatype Activity = Walking | RampsUp | RampsDown | StairsUp | StairsDown | Undefined

  function ActivityValue(a: Activity): int
  {
    match a
    case Walking => 1
    case RampsUp => 2
    case RampsDown => 3
    case StairsUp => 4
    case StairsDown => 5
    case Undefined => 6
  }

  function ActivityName(a: Activity): string
  {
    match a
    case Walking => "WALKING"
    case RampsUp => "RAMPS_UP"
    case RampsDown => "RAMPS_DOWN"
    case StairsUp => "STAIRS_UP"
    case StairsDown => "STAIRS_DOWN"
    case Undefined => "UNDEFINED"
  }

  /** The two experimental regimes a condition label starts with. */
  datatype Regime = Transparent | SM

  function RegimeName(r: Regime): string
  {
    match r
    case Transparent => "transparent"
    case SM => "SM"
  }

  /** A condition label: regime, underscore, activity. */
  function Label(r: Regime, a: Activity): string
  {
    RegimeName(r) + "_" + ActivityName(a)
  }

  /** Condition label to condition code. */
  const ConditionMapping: map<string, int> := map[
    "transparent_UNDEFINED" := 0,
    "transparent_WALKING" := 1,
    "SM_UNDEFINED" := 0,
    "SM_WALKING" := 1,
    "transparent_RAMPS_UP" := 2,
    "transparent_RAMPS_DOWN" := 3,
    "SM_RAMPS_DOWN" := 3,
    "SM_RAMPS_UP" := 2,
    "SM_STAIRS_UP" := 4,
    "SM_STAIRS_DOWN" := 5,
    "transparent_STAIRS_UP" := 4,
    "transparent_STAIRS_DOWN" := 5
  ]

  /** The code a condition label carries: the activity's enumeration value,
      except that an undefined activity has code 0 rather than 6. */
  function ConditionCode(a: Activity): int
  {
    if a == Undefined then 0 else ActivityValue(a)
  }

  /** Every regime/activity label is in the table with its activity's
      condition code, whichever the regime. */
  lemma ConditionCodeOfLabel(r: Regime, a: Activity)
    ensures Label(r, a) in ConditionMapping
    ensures ConditionMapping[Label(r, a)] == ConditionCode(a)
  {
    if r == Transparent {
      TransparentCode(a);
    } else {
      SMCode(a);
    }
  }

  lemma TransparentCode(a: Activity)
    ensures Label(Transparent, a) in ConditionMapping
    ensures ConditionMapping[Label(Transparent, a)] == ConditionCode(a)
  {
    assert RegimeName(Transparent) + "_" == "transparent_";
    match a
    case Walking => assert Label(Transparent, a) == "transparent_WALKING";
    case RampsUp => assert Label(Transparent, a) == "transparent_RAMPS_UP";
    case RampsDown => assert Label(Transparent, a) == "transparent_RAMPS_DOWN";
    case StairsUp => assert Label(Transparent, a) == "transparent_STAIRS_UP";
    case StairsDown => assert Label(Transparent, a) == "transparent_STAIRS_DOWN";
    case Undefined => assert Label(Transparent, a) == "transparent_UNDEFINED";
  }

  lemma SMCode(a: Activity)
    ensures Label(SM, a) in ConditionMapping
    ensures ConditionMapping[Label(SM, a)] == ConditionCode(a)
  {
    assert RegimeName(SM) + "_" == "SM_";
    match a
    case Walking => assert Label(SM, a) == "SM_WALKING";
    case RampsUp => assert Label(SM, a) == "SM_RAMPS_UP";
    case RampsDown => assert Label(SM, a) == "SM_RAMPS_DOWN";
    case StairsUp => assert Label(SM, a) == "SM_STAIRS_UP";
    case StairsDown => assert Label(SM, a) == "SM_STAIRS_DOWN";
    case Undefined => assert Label(SM, a) == "SM_UNDEFINED";
  }

  /** Both regimes give an activity the same code. */
  lemma RegimesAgree(a: Activity)
    ensures Label(Transparent, a) in ConditionMapping && Label(SM, a) in ConditionMapping
    ensures ConditionMapping[Label(Transparent, a)] == ConditionMapping[Label(SM, a)]
  {
    ConditionCodeOfLabel(Transparent, a);
    ConditionCodeOfLabel(SM, a);
  }

  /** The table holds nothing but regime/activity labels, so every code is
      a condition code (0..5) and every undefined label has code 0. */
  lemma ConditionMappingDomain(k: string)
    requires k in ConditionMapping
    ensures exists r: Regime, a: Activity :: k == Label(r, a) && ConditionMapping[k] == ConditionCode(a)
    ensures 0 <= ConditionMapping[k] <= 5
  {
    var r, a;
    if k == "transparent_UNDEFINED" { r, a := Transparent, Undefined; }
    else if k == "transparent_WALKING" { r, a := Transparent, Walking; }
    else if k == "SM_UNDEFINED" { r, a := SM, Undefined; }
    else if k == "SM_WALKING" { r, a := SM, Walking; }
    else if k == "transparent_RAMPS_UP" { r, a := Transparent, RampsUp; }
    else if k == "transparent_RAMPS_DOWN" { r, a := Transparent, RampsDown; }
    else if k == "SM_RAMPS_DOWN" { r, a := SM, RampsDown; }
    else if k == "SM_RAMPS_UP" { r, a := SM, RampsUp; }
    else if k == "SM_STAIRS_UP" { r, a := SM, StairsUp; }
    else if k == "SM_STAIRS_DOWN" { r, a := SM, StairsDown; }
    else if k == "transparent_STAIRS_UP" { r, a := Transparent, StairsUp; }
    else { r, a := Transparent, StairsDown; }
    ConditionCodeOfLabel(r, a);
    assert k == Label(r, a);
  }

  /** Letters are the only cased characters; only ASCII letters are
      considered. */
  predicate IsUpper(c: char) { 'A' <= c <= 'Z' }
  predicate IsLower(c: char) { 'a' <= c <= 'z' }
  predicate IsCased(c: char) { IsUpper(c) || IsLower(c) }

  function ToUpper(c: char): char { if IsLower(c) then (c as int - 32) as char else c }
  function ToLower(c: char): char { if IsUpper(c) then (c as int + 32) as char else c }

  /** `str.replace("_", " ")`. */
  function ReplaceUnderscores(s: string): (r: string)
  {
    seq(|s|, i requires 0 <= i < |s| => if s[i] == '_' then ' ' else s[i])
  }

  /** `str.title()` from the point where the previous character was
      (`afterCased`) or was not a cased character: a cased character is
      upper-cased when it starts a word and lower-cased otherwise; every
      other character is kept and ends the word. */
  function Title(s: string, afterCased: bool): (r: string)
    decreases |s|
  {
    if s == [] then []
    else if IsCased(s[0]) then
      [if afterCased then ToLower(s[0]) else ToUpper(s[0])] + Title(s[1..], true)
    else
      [s[0]] + Title(s[1..], false)
  }

  /** A cased character starts a word when the character before it is not
      cased (or it is the first one). */
  predicate StartsWord(s: string, i: int)
    requires 0 <= i < |s|
  {
    i == 0 || !IsCased(s[i - 1])
  }

  /** Title-casing keeps the length and the casedness of every character,
      upper-cases exactly the word starts and lower-cases the rest. */
  lemma {:induction false} TitleAt(s: string, afterCased: bool, i: int)
    requires 0 <= i < |s|
    ensures |Title(s, afterCased)| == |s|
    ensures var c := Title(s, afterCased)[i];
      if !IsCased(s[i]) then c == s[i]
      else if (if i == 0 then afterCased else IsCased(s[i - 1])) then c == ToLower(s[i])
      else c == ToUpper(s[i])
    decreases |s|
  {
    if i > 0 {
      TitleAt(s[1..], IsCased(s[0]), i - 1);
    } else {
      TitleLength(s[1..], IsCased(s[0]));
    }
  }

  lemma {:induction false} TitleLength(s: string, afterCased: bool)
    ensures |Title(s, afterCased)| == |s|
    decreases |s|
  {
    if s != [] {
      TitleLength(s[1..], IsCased(s[0]));
    }
  }

  /** `format_activity`: underscores become spaces, then every word is
      title-cased. */
  function FormatActivity(activity: string): (r: string)
    ensures |r| == |activity|
    ensures forall i :: 0 <= i < |r| ==> r[i] != '_'
  {
    TitleLength(ReplaceUnderscores(activity), false);
    TitleAddsNoUnderscore(ReplaceUnderscores(activity), false);
    Title(ReplaceUnderscores(activity), false)
  }

  /** Title casing never produces an underscore that was not there. */
  lemma TitleAddsNoUnderscore(s: string, afterCased: bool)
    requires forall i :: 0 <= i < |s| ==> s[i] != '_'
    ensures |Title(s, afterCased)| == |s|
    ensures forall i :: 0 <= i < |s| ==> Title(s, afterCased)[i] != '_'
  {
    TitleLength(s, afterCased);
    forall i | 0 <= i < |s|
      ensures Title(s, afterCased)[i] != '_'
    {
      TitleAt(s, afterCased, i);
    }
  }

  /** One character of the formatted name: `_` becomes a space, a letter
      is upper-cased where a word starts and lower-cased elsewhere, and
      anything else is kept. */
  lemma FormatActivityAt(activity: string, i: int)
    requires 0 <= i < |activity|
    ensures |FormatActivity(activity)| == |activity|
    ensures var c := FormatActivity(activity)[i];
      && c != '_'
      && if activity[i] == '_' then c == ' '
         else if !IsCased(activity[i]) then c == activity[i]
         else if StartsWord(activity, i) then c == ToUpper(activity[i])
         else c == ToLower(activity[i])
  {
    TitleAt(ReplaceUnderscores(activity), false, i);
  }

  /** The formatted name has the input's length and no underscore; each
      character is the input's character with `_` turned into a space,
      upper-cased where a word starts and lower-cased elsewhere. */
  lemma FormatActivitySpec(activity: string)
    ensures var r := FormatActivity(activity);
      && |r| == |activity|
      && (forall i :: 0 <= i < |r| ==> r[i] != '_')
      && (forall i :: 0 <= i < |r| ==>
            if activity[i] == '_' then r[i] == ' '
            else if !IsCased(activity[i]) then r[i] == activity[i]
            else if StartsWord(activity, i) then r[i] == ToUpper(activity[i])
            else r[i] == ToLower(activity[i]))
  {
    TitleLength(ReplaceUnderscores(activity), false);
    forall i | 0 <= i < |activity| {
      FormatActivityAt(activity, i);
    }
  }

  /** Formatting an already formatted name changes nothing. */
  lemma FormatActivityIdempotent(activity: string)
    ensures FormatActivity(FormatActivity(activity)) == FormatActivity(activity)
  {
    var r := FormatActivity(activity);
    FormatActivitySpec(activity);
    FormatActivitySpec(r);
    var rr := FormatActivity(r);
    forall i | 0 <= i < |r|
      ensures rr[i] == r[i]
    {
      assert IsCased(r[i]) == IsCased(activity[i]);
      assert i > 0 ==> IsCased(r[i - 1]) == IsCased(activity[i - 1]);
    }
  }

  /** An upper-case activity name with an underscore reads as two
      capitalised words. */
  lemma FormatActivityExample()
    ensures FormatActivity("STAIRS_UP") == "Stairs Up"
  {
    var s := "STAIRS_UP";
    var r := FormatActivity(s);
    FormatActivityAt(s, 0);
    assert s[0] == 'S' && r[0] == 'S';
    FormatActivityAt(s, 1);
    assert s[1] == 'T' && r[1] == 't';
    FormatActivityAt(s, 2);
    assert s[2] == 'A' && r[2] == 'a';
    FormatActivityAt(s, 3);
    assert s[3] == 'I' && r[3] == 'i';
    FormatActivityAt(s, 4);
    assert s[4] == 'R' && r[4] == 'r';
    FormatActivityAt(s, 5);
    assert s[5] == 'S' && r[5] == 's';
    FormatActivityAt(s, 6);
    assert s[6] == '_' && r[6] == ' ';
    FormatActivityAt(s, 7);
    assert s[7] == 'U' && r[7] == 'U';
    FormatActivityAt(s, 8);
    assert s[8] == 'P' && r[8] == 'p';
    assert r == "Stairs Up";
  }
}
