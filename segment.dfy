/** `segment_color_by_valley`: project a colour image to intensity, threshold
    it with the valley method, build a 0/255 mask (inverted when it would
    cover more than 85% of the image) and zero every masked-out pixel of a
    copy of the image. */
module Segment {
  import opened Images
  import opened Threshold
  import opened Layout

  /** The pixel a flat position of a `pixels x channels` buffer belongs to. */
  function PixelOf(i: nat, channels: nat): nat
    requires channels > 0
  {
    i / channels
  }

  /** The intensity plane: pixel `p` gets `lum` of its channels 0, 1 and 2.
      `lum` stands for `uint8(0.114 * c0 + 0.587 * c1 + 0.299 * c2)`. */
  function Luminance(c: seq<Byte>, pixels: nat, channels: nat, lum: (Byte, Byte, Byte) -> Byte)
    : (gray: seq<Byte>)
    requires channels >= 3 && |c| == pixels * channels
    ensures |gray| == pixels
    ensures forall p :: 0 <= p < pixels ==>
      && Offset(p, 2, channels) < |c|
      && gray[p] == lum(c[Offset(p, 0, channels)], c[Offset(p, 1, channels)], c[Offset(p, 2, channels)])
    decreases pixels
  {
    if pixels == 0 then []
    else
      var last := pixels - 1;
      assert |c| == last * channels + channels;
      var init := c[..last * channels];
      var gray := Luminance(init, last, channels, lum)
        + [lum(c[Offset(last, 0, channels)], c[Offset(last, 1, channels)], c[Offset(last, 2, channels)])];
      assert forall p :: 0 <= p < last ==> Offset(p, 2, channels) < |init| by {
        forall p | 0 <= p < last ensures Offset(p, 2, channels) < |init| {
          OffsetBound(p, 2, last, channels);
        }
      }
      gray
  }

  /** `(gray > th).astype(np.uint8) * 255`, or `(gray <= th)` when `invert`. */
  function ThresholdMask(gray: seq<Byte>, th: int, invert: bool): (m: seq<Byte>)
    ensures |m| == |gray|
    ensures forall p :: 0 <= p < |gray| ==> m[p] == (if (gray[p] > th) != invert then 255 else 0)
  {
    if gray == [] then []
    else [if (gray[0] > th) != invert then 255 else 0] + ThresholdMask(gray[1..], th, invert)
  }

  /** Number of pixels above the threshold. */
  function CountAbove(gray: seq<Byte>, th: int): (n: nat)
    ensures n <= |gray|
  {
    if gray == [] then 0 else (if gray[0] > th then 1 else 0) + CountAbove(gray[1..], th)
  }

  /** Number of foreground (non-zero) mask entries: `(mask > 0).sum()`. */
  function CountNonzero(m: seq<Byte>): nat
  {
    if m == [] then 0 else (if m[0] > 0 then 1 else 0) + CountNonzero(m[1..])
  }

  /** `frac > 0.85` in exact arithmetic: more than 85% of the entries of the
      first mask are foreground. */
  predicate Inverts(gray: seq<Byte>, th: int)
  {
    100 * CountNonzero(ThresholdMask(gray, th, false)) > 85 * |gray|
  }

  /** The mask `segment_color_by_valley` ends up with. */
  function FinalMask(gray: seq<Byte>, th: int): seq<Byte>
  {
    if Inverts(gray, th) then ThresholdMask(gray, th, true) else ThresholdMask(gray, th, false)
  }

  lemma {:induction false} ForegroundCounts(gray: seq<Byte>, th: int)
    ensures CountNonzero(ThresholdMask(gray, th, false)) == CountAbove(gray, th)
    ensures CountNonzero(ThresholdMask(gray, th, true)) == |gray| - CountAbove(gray, th)
  {
    if gray != [] {
      ForegroundCounts(gray[1..], th);
    }
  }

  /** The mask holds only 0 and 255. It is 255 exactly where `gray > th`,
      unless more than 85% of the pixels are above `th`; then it is 255
      exactly where `gray <= th`. Either way at most 85% of it is 255. */
  lemma FinalMaskCorrect(gray: seq<Byte>, th: int)
    ensures Inverts(gray, th) <==> 100 * CountAbove(gray, th) > 85 * |gray|
    ensures var m := FinalMask(gray, th);
      && |m| == |gray|
      && (forall p :: 0 <= p < |m| ==> m[p] == 0 || m[p] == 255)
      && (forall p :: 0 <= p < |m| ==>
            (m[p] == 255 <==> if Inverts(gray, th) then gray[p] <= th else gray[p] > th))
      && 100 * CountNonzero(m) <= 85 * |gray|
  {
    ForegroundCounts(gray, th);
  }

  /** `segmented = img_color.copy(); segmented[mask == 0] = 0`, as a value. */
  function Masked(c: seq<Byte>, channels: nat, mask: seq<Byte>): seq<Byte>
    requires channels > 0 && |c| == |mask| * channels
  {
    seq(|c|, i requires 0 <= i < |c| =>
      PixelBound(i, |mask|, channels);
      if mask[PixelOf(i, channels)] == 0 then 0 else c[i])
  }

  /** The masked copy has the input's size; every channel of pixel `p` is the
      input's where the mask is non-zero and 0 where it is 0. */
  lemma MaskedPixels(c: seq<Byte>, channels: nat, mask: seq<Byte>)
    requires channels > 0 && |c| == |mask| * channels
    ensures |Masked(c, channels, mask)| == |c|
    ensures forall p, k :: 0 <= p < |mask| && 0 <= k < channels ==>
      && Offset(p, k, channels) < |c|
      && Masked(c, channels, mask)[Offset(p, k, channels)] == if mask[p] == 0 then 0 else c[Offset(p, k, channels)]
  {
    forall p, k | 0 <= p < |mask| && 0 <= k < channels
      ensures Offset(p, k, channels) < |c|
      ensures Masked(c, channels, mask)[Offset(p, k, channels)] == if mask[p] == 0 then 0 else c[Offset(p, k, channels)]
    {
      OffsetBound(p, k, |mask|, channels);
      OffsetUnique(p, k, channels);
    }
  }

  /** `segmented = img_color.copy(); segmented[mask == 0] = 0`: the writes go
      to a fresh copy, never to the caller's buffer. */
  method MaskedCopy(image: array<Byte>, channels: nat, mask: seq<Byte>) returns (segmented: array<Byte>)
    requires channels > 0 && image.Length == |mask| * channels
    ensures fresh(segmented)
    ensures segmented[..] == Masked(image[..], channels, mask)
  {
    segmented := new Byte[image.Length](i requires 0 <= i < image.Length reads image => image[i]);
    forall i | 0 <= i < segmented.Length ensures PixelOf(i, channels) < |mask| {
      PixelBound(i, |mask|, channels);
    }
    forall i | 0 <= i < segmented.Length && mask[PixelOf(i, channels)] == 0 {
      segmented[i] := 0;
    }
  }

  /** What `segment_color_by_valley` returns: the segmented image and, when
      asked for, the mask. */
  datatype Segmented = Segmented(image: NdArray, mask: Option<Grid>)

  lemma Product3(shape: seq<nat>)
    requires |shape| == 3
    ensures Product(shape) == (shape[0] * shape[1]) * shape[2]
  {
    var h, w, c := shape[0], shape[1], shape[2];
    assert shape[1..][1..][1..] == [];
    assert Product(shape[1..][1..]) == c;
    assert Product(shape[1..]) == w * c;
    assert h * (w * c) == (h * w) * c;
  }

  /** The intensity plane of a colour image of shape `[h, w, c]`, `c >= 3`. */
  function GrayOf(shape: seq<nat>, c: seq<Byte>, lum: (Byte, Byte, Byte) -> Byte): (g: Grid)
    requires |shape| == 3 && shape[2] >= 3 && |c| == Product(shape)
    ensures g.shape == [shape[0], shape[1]] && |g.data| == shape[0] * shape[1]
    ensures |c| == |g.data| * shape[2]
  {
    Product3(shape);
    Grid([shape[0], shape[1]], Luminance(c, shape[0] * shape[1], shape[2], lum))
  }

  method SegmentColorByValley(
    img: Option<NdArray>, returnMask: bool, lum: (Byte, Byte, Byte) -> Byte,
    smooth: seq<nat> -> seq<real>, variance: seq<nat> -> Scores)
    returns (r: Result<Segmented>)
    requires WellFormed(img)
    ensures img.None? ==> r == Err(ColorIsNone)
    ensures img.Some? && |img.value.shape| != 3 ==> r == Err(NotColor3D)
    ensures img.Some? && |img.value.shape| == 3 && img.value.shape[2] < 3 ==> r == Err(ChannelOutOfRange)
    ensures img.Some? && |img.value.shape| == 3 && img.value.shape[2] >= 3 ==>
      var shape := img.value.shape;
      var c := img.value.buffer[..];
      var gray := GrayOf(shape, c, lum);
      var th := ValleyThreshold(Some(gray), smooth, variance).value;
      var mask := FinalMask(gray.data, th);
      && r.Ok?
      && r.value.image.shape == shape
      && fresh(r.value.image.buffer)
      && r.value.image.buffer[..] == Masked(c, shape[2], mask)
      && r.value.mask == (if returnMask then Some(Grid(gray.shape, mask)) else None)
    ensures img.Some? ==> unchanged(img.value.buffer)
  {
    if img.None? {
      return Err(ColorIsNone);
    }
    var shape := img.value.shape;
    if |shape| != 3 {
      return Err(NotColor3D);
    }
    if shape[2] < 3 {
      return Err(ChannelOutOfRange);
    }
    var c := img.value.buffer[..];
    var channels := shape[2];
    var pixels := shape[0] * shape[1];
    Product3(shape);

    var gray := GrayOf(shape, c, lum);
    var grayBuffer := new Byte[pixels](p requires 0 <= p < pixels => gray.data[p]);
    assert grayBuffer[..] == gray.data;
    assert Snapshot(Some(NdArray(gray.shape, grayBuffer))) == Some(gray);
    var thr := ValleyThresholdGray(Some(NdArray(gray.shape, grayBuffer)), smooth, variance);
    var th := thr.value;
    assert th == ValleyThreshold(Some(gray), smooth, variance).value;

    var mask := ThresholdMask(gray.data, th, false);
    if 100 * CountNonzero(mask) > 85 * pixels {
      mask := ThresholdMask(gray.data, th, true);
    }
    assert mask == FinalMask(gray.data, th);

    var segmented := MaskedCopy(img.value.buffer, channels, mask);
    assert img.value.buffer[..] == c;
    r := Ok(Segmented(NdArray(shape, segmented), if returnMask then Some(Grid(gray.shape, mask)) else None));
  }
}
