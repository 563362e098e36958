/** Column-level building blocks shared by the stages: missing values
    (pandas NaN), the one-row shift, and substring search on labels. */
module Series {

  /** A cell that may be missing (NaN after a shift). */
  datatype Option<T> = None | Some(value: T)

  /** `Series.shift(1)`: every value moves one row down and the first row
      is left without a value. */
  function Shift<T>(s: seq<T>): (r: seq<Option<T>>)
    ensures |r| == |s|
    ensures |s| > 0 ==> r[0] == None
    ensures forall i :: 0 < i < |s| ==> r[i] == Some(s[i - 1])
  {
    if |s| == 0 then [] else [None] + seq(|s| - 1, i requires 0 <= i < |s| - 1 => Some(s[i]))
  }

  /** `p` occurs in `s` starting at index `k`. */
  ghost predicate OccursAt(s: string, p: string, k: int)
  {
    0 <= k && k + |p| <= |s| && s[k..k + |p|] == p
  }

  /** Python's `p in s` on strings (and `str.contains` with a pattern
      that has no regular-expression metacharacters), by scanning. */
  function Contains(s: string, p: string): (found: bool)
    ensures found ==> |p| <= |s|
    ensures p == [] ==> found
    decreases |s|
  {
    if |p| <= |s| && s[..|p|] == p then true
    else if |s| == 0 then false
    else Contains(s[1..], p)
  }

  /** The scan finds `p` exactly when `p` occurs somewhere in `s`. */
  lemma {:induction false} ContainsIff(s: string, p: string)
    ensures Contains(s, p) <==> exists k :: OccursAt(s, p, k)
    decreases |s|
  {
    if |p| <= |s| && s[..|p|] == p {
      assert OccursAt(s, p, 0);
    } else if |s| > 0 {
      ContainsIff(s[1..], p);
      if exists k :: OccursAt(s, p, k) {
        var k :| OccursAt(s, p, k);
        assert s[1..][k - 1..k - 1 + |p|] == s[k..k + |p|];
        assert OccursAt(s[1..], p, k - 1);
      }
      if exists k :: OccursAt(s[1..], p, k) {
        var k :| OccursAt(s[1..], p, k);
        assert s[1..][k..k + |p|] == s[k + 1..k + 1 + |p|];
        assert OccursAt(s, p, k + 1);
      }
    }
  }

  /** A string never contains a longer one. */
  lemma {:induction false} ContainsNotLonger(s: string, p: string)
    requires |s| < |p|
    ensures !Contains(s, p)
    decreases |s|
  {
    if |s| > 0 {
      ContainsNotLonger(s[1..], p);
    }
  }
}
