/** The 256-bin intensity histogram of a grayscale buffer, as
    `np.histogram(gray.ravel(), bins=256, range=(0, 255))` builds it. */
module Histograms {
  import opened Images

  const Bins: nat := 256

  /** The bin NumPy assigns a sample to. With `range=(0, 255)` and 256 bins the
      edges are `k * 255 / 256`; a sample `v` falls in bin `floor(v * 256 / 255)`,
      and the value 255, sitting on the closed right edge, goes into the last
      bin. For integer samples that is always bin `v` itself. */
  function BinOf(v: Byte): (b: int)
    ensures b == v
  {
    var b := v * 256 / 255;
    if b == Bins then Bins - 1 else b
  }

  /** The histogram of `data`: one count per bin, samples taken in order. */
  function Histogram(data: seq<Byte>): (h: seq<nat>)
    ensures |h| == Bins
    decreases |data|
  {
    if data == [] then seq(Bins, _ => 0)
    else
      var h := Histogram(data[..|data| - 1]);
      var b := BinOf(data[|data| - 1]);
      h[b := h[b] + 1]
  }

  /** Total mass of a histogram. */
  function Sum(h: seq<nat>): nat
  {
    if h == [] then 0 else h[0] + Sum(h[1..])
  }

  lemma {:induction false} SumIncrement(h: seq<nat>, b: nat)
    requires b < |h|
    ensures Sum(h[b := h[b] + 1]) == Sum(h) + 1
  {
    if b > 0 {
      assert h[b := h[b] + 1][1..] == h[1..][b - 1 := h[1..][b - 1] + 1];
      SumIncrement(h[1..], b - 1);
    } else {
      assert h[b := h[b] + 1][1..] == h[1..];
    }
  }

  lemma {:induction false} SumOfZeros(n: nat)
    ensures Sum(seq(n, _ => 0)) == 0
  {
    if n > 0 {
      assert seq(n, _ => 0)[1..] == seq(n - 1, _ => 0);
      SumOfZeros(n - 1);
    }
  }

  /** Bin `v` counts exactly the samples equal to `v`, whatever their order, so
      the bins add up to the number of samples and are all 0 for an empty
      buffer. */
  lemma {:induction false} HistogramCounts(data: seq<Byte>)
    ensures forall v: Byte :: Histogram(data)[v] == multiset(data)[v]
    ensures Sum(Histogram(data)) == |data|
    ensures data == [] ==> forall v: Byte :: Histogram(data)[v] == 0
    decreases |data|
  {
    if data == [] {
      SumOfZeros(Bins);
    } else {
      var init, x := data[..|data| - 1], data[|data| - 1];
      assert data == init + [x];
      HistogramCounts(init);
      SumIncrement(Histogram(init), x);
    }
  }
}
