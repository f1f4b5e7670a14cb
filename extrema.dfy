/** `np.argmin` and `np.nanargmax` over a non-empty sequence of reals: the
    position of an extreme value, the first one when several positions hold
    it. (The model's reals have no NaN, so `nanargmax` is a plain argmax.) */
module Extrema {

  /** `k` holds the smallest value of `s`, and no earlier position holds it. */
  predicate IsFirstMin(s: seq<real>, k: int)
  {
    && 0 <= k < |s|
    && (forall j :: 0 <= j < |s| ==> s[k] <= s[j])
    && (forall j :: 0 <= j < k ==> s[j] > s[k])
  }

  /** `k` holds the largest value of `s`, and no earlier position holds it. */
  predicate IsFirstMax(s: seq<real>, k: int)
  {
    && 0 <= k < |s|
    && (forall j :: 0 <= j < |s| ==> s[j] <= s[k])
    && (forall j :: 0 <= j < k ==> s[j] < s[k])
  }

  function ArgMinFirst(s: seq<real>): (k: nat)
    requires |s| > 0
    ensures IsFirstMin(s, k)
  {
    if |s| == 1 then 0
    else
      var k := ArgMinFirst(s[..|s| - 1]);
      if s[|s| - 1] < s[k] then |s| - 1 else k
  }

  function ArgMaxFirst(s: seq<real>): (k: nat)
    requires |s| > 0
    ensures IsFirstMax(s, k)
  {
    if |s| == 1 then 0
    else
      var k := ArgMaxFirst(s[..|s| - 1]);
      if s[|s| - 1] > s[k] then |s| - 1 else k
  }
}
