/** Linear scans over a table row: the first and the last element that
    satisfies a test, and how many elements satisfy it. */
module Search {
  import opened Wrappers

  /** The index a forward scan that stops at its first match returns. */
  function First<T>(s: seq<T>, p: T -> bool): (r: Option<nat>)
    ensures r.Some? ==> r.value < |s| && p(s[r.value])
    ensures r.Some? ==> forall j :: 0 <= j < r.value ==> !p(s[j])
    ensures r.None? ==> forall j :: 0 <= j < |s| ==> !p(s[j])
  {
    if |s| == 0 then None
    else if p(s[0]) then Some(0)
    else match First(s[1..], p)
      case None => None
      case Some(i) => Some(i + 1)
  }

  /** The index a forward scan that never stops, and remembers every match,
      ends up holding: the last match. */
  function Last<T>(s: seq<T>, p: T -> bool): (r: Option<nat>)
    ensures r.Some? ==> r.value < |s| && p(s[r.value])
    ensures r.Some? ==> forall j :: r.value < j < |s| ==> !p(s[j])
    ensures r.None? ==> forall j :: 0 <= j < |s| ==> !p(s[j])
  {
    if |s| == 0 then None
    else if p(s[|s| - 1]) then Some(|s| - 1)
    else Last(s[..|s| - 1], p)
  }

  /** The number of elements that satisfy p. */
  function Count<T>(s: seq<T>, p: T -> bool): (n: nat)
    ensures n <= |s|
  {
    if |s| == 0 then 0 else (if p(s[0]) then 1 else 0) + Count(s[1..], p)
  }

  /** Replacing one element changes the count by what that element
      contributed before and after. */
  lemma {:induction false} CountUpdate<T>(s: seq<T>, i: nat, v: T, p: T -> bool)
    requires i < |s|
    ensures Count(s[i := v], p)
         == Count(s, p) - (if p(s[i]) then 1 else 0) + (if p(v) then 1 else 0)
  {
    if i > 0 {
      CountUpdate(s[1..], i - 1, v, p);
      assert s[i := v][1..] == s[1..][i - 1 := v];
    }
  }

  /** No element satisfies p exactly when the count is zero. */
  lemma {:induction false} CountZero<T>(s: seq<T>, p: T -> bool)
    ensures Count(s, p) == 0 <==> forall j :: 0 <= j < |s| ==> !p(s[j])
  {
    if |s| > 0 {
      CountZero(s[1..], p);
      if Count(s, p) == 0 {
        forall j | 0 <= j < |s| ensures !p(s[j]) {
          if j > 0 {
            assert s[j] == s[1..][j - 1];
          }
        }
      } else if !p(s[0]) {
        var j :| 0 <= j < |s[1..]| && p(s[1..][j]);
        assert s[1..][j] == s[j + 1];
      }
    }
  }

  /** Every element satisfies p exactly when the count is the length. */
  lemma {:induction false} CountFull<T>(s: seq<T>, p: T -> bool)
    ensures Count(s, p) == |s| <==> forall j :: 0 <= j < |s| ==> p(s[j])
  {
    if |s| > 0 {
      CountFull(s[1..], p);
      if Count(s, p) == |s| {
        forall j | 0 <= j < |s| ensures p(s[j]) {
          if j > 0 {
            assert s[j] == s[1..][j - 1];
          }
        }
      } else if p(s[0]) {
        var j :| 0 <= j < |s[1..]| && !p(s[1..][j]);
        assert s[1..][j] == s[j + 1];
      }
    }
  }
}
