/** Flat, row-major layout of an image with a channel axis: channel `k` of
    pixel `p` sits at `p * channels + k`. */
module Layout {
  /** The flat position of channel `k` of pixel `p`. */
  function Offset(p: nat, k: nat, channels: nat): nat
  {
    p * channels + k
  }

  lemma {:induction false} MulMono(a: nat, b: nat, c: nat)
    requires a <= b
    ensures a * c <= b * c
    decreases b - a
  {
    if a < b {
      MulMono(a, b - 1, c);
      assert b * c == (b - 1) * c + c;
    }
  }

  lemma OffsetBound(p: nat, k: nat, pixels: nat, channels: nat)
    requires p < pixels && k < channels
    ensures Offset(p, k, channels) < pixels * channels
  {
    MulMono(p + 1, pixels, channels);
    assert (p + 1) * channels == p * channels + channels;
  }

  lemma PixelBound(i: nat, pixels: nat, channels: nat)
    requires 0 < channels && i < pixels * channels
    ensures i / channels < pixels
  {
  }

  lemma OffsetUnique(p: nat, k: nat, channels: nat)
    requires k < channels
    ensures Offset(p, k, channels) / channels == p
    ensures Offset(p, k, channels) % channels == k
  {
    var i := Offset(p, k, channels);
    var q, r := i / channels, i % channels;
    assert i == q * channels + r;
    if q > p {
      MulMono(p + 1, q, channels);
    } else if q < p {
      MulMono(q + 1, p, channels);
    }
  }
}
