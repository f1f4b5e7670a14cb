/** Local maxima of the smoothed histogram. The scan visits
    `range(1, len(sh) - 1)` and keeps an index when its value is strictly
    greater than both neighbours. The smoothed histogram is any sequence of
    reals here: its length is that of `np.convolve(..., mode='same')`, which
    is 256 unless the Gaussian kernel is longer than that. */
module Peaks {

  /** `i` is an interior index whose value beats both neighbours strictly. */
  predicate IsPeak(sh: seq<real>, i: int)
  {
    1 <= i && i + 1 < |sh| && sh[i] > sh[i - 1] && sh[i] > sh[i + 1]
  }

  /** The list the scan has built once it has visited the indices below `n`. */
  function PeaksBelow(sh: seq<real>, n: int): seq<int>
    decreases n
  {
    if n <= 1 then []
    else PeaksBelow(sh, n - 1) + (if IsPeak(sh, n - 1) then [n - 1] else [])
  }

  /** The list the whole scan returns. */
  function PeakList(sh: seq<real>): seq<int>
  {
    PeaksBelow(sh, |sh| - 1)
  }

  /** The scan loop of `valley_threshold_gray`: visit 1 .. |sh| - 2 in order
      and append every index that beats both neighbours. */
  method ScanPeaks(sh: seq<real>) returns (peaks: seq<int>)
    ensures peaks == PeakList(sh)
  {
    peaks := [];
    var i := 1;
    while i < |sh| - 1
      invariant 1 <= i && (i <= |sh| - 1 || i == 1)
      invariant peaks == PeaksBelow(sh, i)
    {
      if sh[i] > sh[i - 1] && sh[i] > sh[i + 1] {
        peaks := peaks + [i];
      }
      i := i + 1;
    }
  }

  predicate StrictlyAscending(s: seq<int>)
  {
    forall j, k :: 0 <= j < k < |s| ==> s[j] < s[k]
  }

  lemma {:induction false} PeaksBelowExact(sh: seq<real>, n: int)
    ensures forall k :: 0 <= k < |PeaksBelow(sh, n)| ==>
      IsPeak(sh, PeaksBelow(sh, n)[k]) && PeaksBelow(sh, n)[k] < n
    ensures forall i :: IsPeak(sh, i) && i < n ==> i in PeaksBelow(sh, n)
    ensures StrictlyAscending(PeaksBelow(sh, n))
    decreases n
  {
    if n > 1 {
      PeaksBelowExact(sh, n - 1);
    }
  }

  /** Every listed index lies in 1 .. |sh| - 2 and beats both neighbours
      strictly; every such index is listed; the list is strictly ascending. */
  lemma PeakListExact(sh: seq<real>)
    ensures forall k :: 0 <= k < |PeakList(sh)| ==>
      var p := PeakList(sh)[k];
      1 <= p <= |sh| - 2 && sh[p] > sh[p - 1] && sh[p] > sh[p + 1]
    ensures forall i :: IsPeak(sh, i) ==> i in PeakList(sh)
    ensures StrictlyAscending(PeakList(sh))
  {
    PeaksBelowExact(sh, |sh| - 1);
  }

  /** A flat run of two or more equal values holds no peak. */
  lemma PlateauHasNoPeak(sh: seq<real>, lo: int, hi: int)
    requires 0 <= lo < hi < |sh|
    requires forall k :: lo <= k <= hi ==> sh[k] == sh[lo]
    ensures forall k :: lo <= k <= hi ==> k !in PeakList(sh)
  {
    PeaksBelowExact(sh, |sh| - 1);
    forall k | lo <= k <= hi
      ensures !IsPeak(sh, k)
    {
      if k < hi {
        assert sh[k + 1] == sh[k];
      } else {
        assert sh[k - 1] == sh[k];
      }
    }
  }
}
