/** Threshold selection on a grayscale image: `valley_threshold_gray` and its
    fallback `otsu_threshold` (src/segmentation.py).

    The floating-point parts are parameters. `smooth` stands for
    `_smooth_histogram(hist, sigma)` (a Gaussian convolution, any `sigma`),
    and `variance` for Otsu's between-class variance curve over the 256
    candidate thresholds. Everything the code decides by comparing those
    numbers is modelled exactly. */
module Threshold {
  import opened Images
  import opened Histograms
  import opened Peaks
  import opened Ranking
  import opened Extrema

  /** One real per candidate threshold 0 .. 255. */
  type Scores = s: seq<real> | |s| == 256 witness seq(256, _ => 0.0)

  /** `otsu_threshold`: 0 when the histogram holds no mass, else the first
      threshold of largest between-class variance. */
  function Otsu(data: seq<Byte>, variance: seq<nat> -> Scores): (t: int)
    ensures 0 <= t < Bins
    ensures |data| == 0 ==> t == 0
    ensures |data| > 0 ==> IsFirstMax(variance(Histogram(data)), t)
  {
    var hist := Histogram(data);
    HistogramCounts(data);
    if Sum(hist) == 0 then 0 else ArgMaxFirst(variance(hist))
  }

  lemma PeakListInRange(sh: seq<real>)
    ensures InRange(sh, PeakList(sh))
  {
    PeakListExact(sh);
  }

  /** The two chosen peaks in index order, after `if p1 > p2: swap`. */
  function ChosenPeaks(sh: seq<real>, peaks: seq<int>): Pair
    requires |peaks| >= 2 && InRange(sh, peaks)
  {
    var t := TallestTwo(sh, peaks);
    if t.first > t.second then Pair(t.second, t.first) else t
  }

  /** What `valley_threshold_gray(gray, sigma)` returns or raises. */
  function ValleyThreshold(gray: Option<Grid>, smooth: seq<nat> -> seq<real>, variance: seq<nat> -> Scores)
    : (r: Result<int>)
    ensures gray.None? ==> r == Err(GrayIsNone)
    ensures gray.Some? && |gray.value.shape| != 2 ==> r == Err(NotGray2D)
    ensures gray.Some? && |gray.value.shape| == 2 ==> r.Ok?
  {
    if gray.None? then Err(GrayIsNone)
    else if |gray.value.shape| != 2 then Err(NotGray2D)
    else
      var data := gray.value.data;
      var sh := smooth(Histogram(data));
      var peaks := PeakList(sh);
      if |peaks| < 2 then Ok(Otsu(data, variance)) else Ok(Valley(sh))
  }

  /** `p1 + np.argmin(sh[p1:p2 + 1])` for two peaks `p1 < p2`: the first
      position of the smallest value between them. It lies strictly between
      the peaks, so the slice it is taken from is never empty. */
  function ValleyBetween(sh: seq<real>, p1: int, p2: int): (v: int)
    requires p1 < p2 && IsPeak(sh, p1) && IsPeak(sh, p2)
    ensures p1 < v < p2
    ensures forall j | p1 <= j <= p2 :: sh[v] <= sh[j]
    ensures forall j | p1 <= j < v :: sh[j] > sh[v]
  {
    var slice := sh[p1..p2 + 1];
    var k := ArgMinFirst(slice);
    assert slice[k] <= slice[1] < slice[0];
    assert slice[k] <= slice[|slice| - 2] < slice[|slice| - 1];
    assert forall j | p1 <= j <= p2 :: slice[j - p1] == sh[j];
    p1 + k
  }

  /** The valley between the two chosen peaks of the scan. */
  function Valley(sh: seq<real>): (v: int)
    requires |PeakList(sh)| >= 2
    ensures InRange(sh, PeakList(sh))
    ensures var c := ChosenPeaks(sh, PeakList(sh));
      && 0 <= c.first < v < c.second < |sh|
      && (forall j | c.first <= j <= c.second :: sh[v] <= sh[j])
      && (forall j | c.first <= j < v :: sh[j] > sh[v])
  {
    ChosenPeaksAreTallest(sh);
    var c := ChosenPeaks(sh, PeakList(sh));
    ValleyBetween(sh, c.first, c.second)
  }

  /** The histogram, the scan, the sort, the swap and the argmin of `valley_threshold_gray`,
      on the array the caller passes. */
  method ValleyThresholdGray(gray: Option<NdArray>, smooth: seq<nat> -> seq<real>, variance: seq<nat> -> Scores)
    returns (r: Result<int>)
    ensures r == ValleyThreshold(Snapshot(gray), smooth, variance)
  {
    if gray.None? {
      return Err(GrayIsNone);
    }
    if |gray.value.shape| != 2 {
      return Err(NotGray2D);
    }
    var data := gray.value.buffer[..];
    ghost var g := Grid(gray.value.shape, data);
    assert Snapshot(gray) == Some(g);
    var sh := smooth(Histogram(data));

    var peaks := ScanPeaks(sh);

    if |peaks| < 2 {
      r := Ok(Otsu(data, variance));
      assert r == ValleyThreshold(Some(g), smooth, variance);
      return;
    }

    var valley := SelectValley(sh, peaks);
    r := Ok(valley);
    assert r == ValleyThreshold(Some(g), smooth, variance);
  }

  /** The sort, the swap and the argmin of `valley_threshold_gray`, once the
      scan has found at least two peaks. */
  method SelectValley(sh: seq<real>, peaks: seq<int>) returns (valley: int)
    requires peaks == PeakList(sh) && |peaks| >= 2
    ensures valley == Valley(sh)
  {
    PeakListInRange(sh);
    var p1, p2 := ChoosePeaks(sh, peaks);
    ChosenPeaksAreTallest(sh);
    var valleyRel := ArgMinFirst(sh[p1..p2 + 1]);
    valley := p1 + valleyRel;
    assert valley == ValleyBetween(sh, p1, p2);
  }

  /** `peak_vals` built, sorted in place, its first two indices taken and put
      in index order. */
  method ChoosePeaks(sh: seq<real>, peaks: seq<int>) returns (p1: int, p2: int)
    requires |peaks| >= 2 && InRange(sh, peaks)
    ensures Pair(p1, p2) == ChosenPeaks(sh, peaks)
  {
    var peakVals := new PeakVal[|peaks|](k requires 0 <= k < |peaks| => PeakVal(peaks[k], sh[peaks[k]]));
    assert peakVals[..] == PeakValues(sh, peaks);
    SortInPlace(peakVals);
    assert |peakVals[..]| == |multiset(peakVals[..])| == |peaks|;
    p1 := peakVals[0].index;
    p2 := peakVals[1].index;
    if p1 > p2 {
      p1, p2 := p2, p1;
    }
  }

  /** For any list that holds exactly the peaks of `sh`, in ascending order,
      the chosen pair is two different peaks in index order, each outranking
      every other peak. */
  lemma ChosenAmong(sh: seq<real>, peaks: seq<int>)
    requires |peaks| >= 2 && InRange(sh, peaks) && StrictlyAscending(peaks)
    requires forall k :: 0 <= k < |peaks| ==> IsPeak(sh, peaks[k])
    requires forall i :: IsPeak(sh, i) ==> i in peaks
    ensures var c := ChosenPeaks(sh, peaks);
      && c.first < c.second && IsPeak(sh, c.first) && IsPeak(sh, c.second)
      && (forall q | IsPeak(sh, q) && q != c.first && q != c.second ::
            OutranksAt(sh, c.first, q) && OutranksAt(sh, c.second, q))
  {
    TallestTwoOutrankTheRest(sh, peaks);
  }

  /** The chosen peaks are two genuine peaks with `p1 < p2`, and each of them
      outranks every other peak: it is taller, or as tall and at a lower
      index. */
  lemma ChosenPeaksAreTallest(sh: seq<real>)
    requires |PeakList(sh)| >= 2
    ensures InRange(sh, PeakList(sh))
    ensures var c := ChosenPeaks(sh, PeakList(sh));
      && c.first < c.second && IsPeak(sh, c.first) && IsPeak(sh, c.second)
      && (forall q | IsPeak(sh, q) && q != c.first && q != c.second ::
            OutranksAt(sh, c.first, q) && OutranksAt(sh, c.second, q))
  {
    PeakListExact(sh);
    ChosenAmong(sh, PeakList(sh));
  }

  /** A grayscale input of two dimensions always yields a threshold: Otsu's
      when the scan finds fewer than two peaks, else the first position of the
      smallest value between the two chosen peaks, strictly between them. */
  lemma ValleyThresholdCorrect(g: Grid, smooth: seq<nat> -> seq<real>, variance: seq<nat> -> Scores)
    requires |g.shape| == 2
    ensures var sh := smooth(Histogram(g.data));
      var r := ValleyThreshold(Some(g), smooth, variance);
      && r.Ok?
      && (|PeakList(sh)| < 2 ==> r.value == Otsu(g.data, variance))
      && (|PeakList(sh)| >= 2 ==>
            InRange(sh, PeakList(sh)) &&
            var p1, p2 := ChosenPeaks(sh, PeakList(sh)).first, ChosenPeaks(sh, PeakList(sh)).second;
            var v := r.value;
            && 0 <= p1 < v < p2 < |sh|
            && (forall j | p1 <= j <= p2 :: sh[v] <= sh[j])
            && (forall j | p1 <= j < v :: sh[j] > sh[v]))
  {
    var sh := smooth(Histogram(g.data));
    if |PeakList(sh)| >= 2 {
      assert ValleyThreshold(Some(g), smooth, variance) == Ok(Valley(sh));
    }
  }

}
