/** Pixel buffers as the segmentation pipeline receives and returns them.
    A NumPy `ndarray` of `uint8` is a shape (its length is `ndim`) over a
    flat, row-major buffer of bytes. Arrays the caller hands in or gets back
    are heap buffers (`NdArray`); `Grid` is the value a buffer holds at one
    moment, which the specification functions work on. */
module Images {

  /** One `uint8` sample. */
  type Byte = x: int | 0 <= x < 256

  /** The failures the pipeline raises before producing any result. */
  datatype Error =
    | GrayIsNone        // `ValueError("gray is None")`
    | NotGray2D         // `ValueError("Input must be a 2D grayscale image")`
    | ColorIsNone       // `ValueError("img_color is None")`
    | NotColor3D        // `ValueError("Input must be a color (3-channel) image")`
    | ChannelOutOfRange // `IndexError` from `img_color[:, :, k]` for the first missing channel `k` < 3

  datatype Option<+T> = None | Some(value: T)

  datatype Result<+T> = Ok(value: T) | Err(error: Error)

  /** Number of elements of an array of the given shape. */
  function Product(shape: seq<nat>): nat
  {
    if shape == [] then 1 else shape[0] * Product(shape[1..])
  }

  /** A value snapshot of an n-dimensional byte array. */
  datatype Grid = Grid(shape: seq<nat>, data: seq<Byte>)

  /** An n-dimensional byte array living on the heap. */
  datatype NdArray = NdArray(shape: seq<nat>, buffer: array<Byte>)
  {
    predicate Valid() { buffer.Length == Product(shape) }

    function Value(): Grid
      reads buffer
    {
      Grid(shape, buffer[..])
    }
  }

  /** The snapshot of an optional argument (`None` stays `None`). */
  function Snapshot(a: Option<NdArray>): Option<Grid>
    reads if a.Some? then {a.value.buffer} else {}
  {
    if a.None? then None else Some(a.value.Value())
  }

  /** Arguments a caller may pass: `None`, or an array whose buffer holds as
      many bytes as its shape describes. */
  predicate WellFormed(a: Option<NdArray>)
  {
    a.Some? ==> a.value.Valid()
  }
}
