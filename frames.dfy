/**
 * The values the dehazing pipeline works on: 8-bit three-channel frames, the
 * percentile that sizes the bright-pixel sample, and the errors the pipeline
 * raises.
 */
module Frames {

  /** One 8-bit channel value (`np.uint8`). */
  type Byte = x: int | 0 <= x < 256

  /** The three channel values of one pixel, in OpenCV's order: blue, green, red. */
  type Pixel = s: seq<Byte> | |s| == 3 witness [0, 0, 0]

  /** A channel index, 0 (blue), 1 (green) or 2 (red). */
  type Channel = c: nat | c < 3

  /**
   * A decoded video frame of shape (height, width, 3). The pixels are kept in
   * row-major order, the order in which `ravel` reads them.
   */
  datatype Image = Image(height: nat, width: nat, pixels: seq<Pixel>)

  /** A frame whose pixel list matches its shape, as every NumPy array's does. */
  type Frame = f: Image | |f.pixels| == f.height * f.width witness Image(0, 0, [])

  /** `img[:, :, c].ravel()`: every value of channel `c`, one per pixel. */
  function ChannelValues(img: Frame, c: Channel): (vals: seq<Byte>)
    ensures |vals| == |img.pixels|
    ensures forall i :: 0 <= i < |vals| ==> vals[i] == img.pixels[i][c]
  {
    seq(|img.pixels|, i requires 0 <= i < |img.pixels| => img.pixels[i][c])
  }

  /**
   * The fraction of the frame's pixels whose brightness sets the light
   * estimate, as an exact ratio `num / den`.
   */
  datatype Fraction = Fraction(num: int, den: int)
  type Percentile = f: Fraction | f.den > 0 witness Fraction(1, 10)

  /** The default `mean_of_top_percentile` of 0.1. */
  const DefaultPercentile: Percentile := Fraction(1, 10)

  /** Python's `int()` of a quotient: division truncated toward zero. */
  function TruncDiv(a: int, b: int): (q: int)
    requires b > 0
  {
    if a >= 0 then a / b else -((-a) / b)
  }

  /** `num_pixels = int(H * W * p)`. */
  function PixelCount(height: nat, width: nat, p: Percentile): (n: int)
  {
    TruncDiv(height * width * p.num, p.den)
  }

  /**
   * Truncating division rounds toward zero: down for a non-negative
   * dividend, up for a negative one.
   */
  lemma {:induction false} TruncDivBounds(a: int, b: int)
    requires b > 0
    ensures var q := TruncDiv(a, b);
            (a >= 0 ==> 0 <= q && q * b <= a < q * b + b) &&
            (a < 0 ==> q <= 0 && q * b - b < a <= q * b)
  {
    if a >= 0 {
      FloorDivBounds(a, b);
    } else {
      var q := (-a) / b;
      FloorDivBounds(-a, b);
      assert TruncDiv(a, b) * b == -(q * b) by {
        assert TruncDiv(a, b) == -q;
      }
    }
  }

  /** Division of a natural number rounds down. */
  lemma {:induction false} FloorDivBounds(m: nat, b: int)
    requires b > 0
    ensures 0 <= m / b && (m / b) * b <= m < (m / b) * b + b
  {
    var q := m / b;
    assert m == q * b + m % b && 0 <= m % b < b;
  }

  /**
   * The sample size is the product of the frame's two dimensions and the
   * percentile, truncated toward zero: the floor for a non-negative
   * percentile, the ceiling for a negative one.
   */
  lemma {:induction false} PixelCountTruncates(height: nat, width: nat, p: Percentile)
    ensures var n := PixelCount(height, width, p);
            var a := height * width * p.num;
            (a >= 0 ==> 0 <= n && n * p.den <= a < (n + 1) * p.den) &&
            (a < 0 ==> n <= 0 && (n - 1) * p.den < a <= n * p.den)
  {
    var n := PixelCount(height, width, p);
    TruncDivBounds(height * width * p.num, p.den);
    assert (n + 1) * p.den == n * p.den + p.den;
    assert (n - 1) * p.den == n * p.den - p.den;
  }

  /** For a percentile in [0, 1] the sample never holds more pixels than the frame. */
  lemma {:induction false} PixelCountWithinFrame(height: nat, width: nat, p: Percentile)
    requires 0 <= p.num <= p.den
    ensures 0 <= PixelCount(height, width, p) <= height * width
  {
    var n := PixelCount(height, width, p);
    PixelCountTruncates(height, width, p);
    MulMonotone(height * width, p.num, p.den);
    assert n * p.den < (height * width + 1) * p.den;
    MulCancel(n, height * width + 1, p.den);
  }

  /** Multiplying by a natural number keeps the order of the factors. */
  lemma {:induction false} MulMonotone(a: nat, x: int, y: int)
    requires x <= y
    ensures a * x <= a * y
  {
  }

  /** A positive common factor can be cancelled from a strict inequality. */
  lemma {:induction false} MulCancel(x: int, y: int, d: int)
    requires d > 0 && x * d < y * d
    ensures x < y
  {
  }

  /**
   * The errors the pipeline can raise: the capture yields no first frame
   * (the estimator is handed `None`), the frame has no pixels (`np.max` of a
   * zero-size array), or the sample position falls outside the channel.
   */
  datatype Error = NoFrame | EmptyFrame | IndexOutOfRange
}
