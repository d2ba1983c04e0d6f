/** The per-pixel Sobel gradient kernel of `sobel_filter`.

    An image is a single-channel raster stored row-major in a flat sequence:
    the pixel in column `c` and row `r` of an image `width` pixels wide lives
    at index `r * width + c`.  The C code computes `gx` and `gy` in `int`,
    takes `sqrt` in `double`, truncates it back to `int` by assignment and
    clamps it to 255.  Here the truncated square root is the integer floor
    square root (see `FloorSqrt`).  The gradient intermediates `gx`, `gy`
    and `gx*gx + gy*gy` are shown to fit in 32 bits, so unbounded integers
    compute the same values for them; the flat indices are shown to lie below
    `width * height`, whose own fit in 32 bits is not checked. */
module Kernel {

  /** An `unsigned char` pixel value. */
  type Byte = b: int | 0 <= b < 256

  /** Largest value of a signed 32-bit `int`. */
  const IntMax: int := 0x7FFF_FFFF

  /** A raster of `width` x `height` pixels held row-major in `img`. */
  predicate Shape(img: seq<Byte>, width: int, height: int)
  {
    width >= 1 && height >= 1 && |img| == width * height
  }

  /** An interior pixel: not on the border rows or columns. */
  predicate Interior(width: int, height: int, x: int, y: int)
  {
    1 <= x <= width - 2 && 1 <= y <= height - 2
  }

  /** Multiplying by a non-negative factor preserves order. */
  lemma MulLeft(a: int, b: int, c: int)
    requires 0 <= a <= b && c >= 0
    ensures a * c <= b * c
  {
  }

  /** Every cell of the raster has a flat index inside the buffer. */
  lemma CellInBounds(width: int, height: int, r: int, c: int)
    requires width >= 1 && 0 <= r < height && 0 <= c < width
    ensures 0 <= r * width + c < width * height
  {
    MulLeft(r, height - 1, width);
    assert (height - 1) * width + width == width * height;
  }

  /** The nine flat indices read for an interior pixel all lie in the buffer. */
  lemma NeighbourhoodInBounds(width: int, height: int, x: int, y: int)
    requires width >= 1 && height >= 1 && Interior(width, height, x, y)
    ensures 0 <= (y - 1) * width + (x - 1) < width * height
    ensures 0 <= (y - 1) * width + x < width * height
    ensures 0 <= (y - 1) * width + (x + 1) < width * height
    ensures 0 <= y * width + (x - 1) < width * height
    ensures 0 <= y * width + (x + 1) < width * height
    ensures 0 <= (y + 1) * width + (x - 1) < width * height
    ensures 0 <= (y + 1) * width + x < width * height
    ensures 0 <= (y + 1) * width + (x + 1) < width * height
  {
    CellInBounds(width, height, y - 1, x - 1);
    CellInBounds(width, height, y - 1, x);
    CellInBounds(width, height, y - 1, x + 1);
    CellInBounds(width, height, y, x - 1);
    CellInBounds(width, height, y, x + 1);
    CellInBounds(width, height, y + 1, x - 1);
    CellInBounds(width, height, y + 1, x);
    CellInBounds(width, height, y + 1, x + 1);
  }

  /** The pixel in column `c` of row `r`. */
  function Px(img: seq<Byte>, width: int, height: int, c: int, r: int): Byte
    requires Shape(img, width, height) && 0 <= c < width && 0 <= r < height
  {
    CellInBounds(width, height, r, c);
    img[r * width + c]
  }

  /** Horizontal Sobel sum: right column minus left column, weights 1, 2, 1. */
  function Gx(img: seq<Byte>, width: int, height: int, x: int, y: int): (g: int)
    requires Shape(img, width, height) && Interior(width, height, x, y)
    ensures -1020 <= g <= 1020
  {
    (Px(img, width, height, x + 1, y - 1) + 2 * Px(img, width, height, x + 1, y) + Px(img, width, height, x + 1, y + 1))
    - (Px(img, width, height, x - 1, y - 1) + 2 * Px(img, width, height, x - 1, y) + Px(img, width, height, x - 1, y + 1))
  }

  /** Vertical Sobel sum: lower row minus upper row, weights 1, 2, 1. */
  function Gy(img: seq<Byte>, width: int, height: int, x: int, y: int): (g: int)
    requires Shape(img, width, height) && Interior(width, height, x, y)
    ensures -1020 <= g <= 1020
  {
    (Px(img, width, height, x - 1, y + 1) + 2 * Px(img, width, height, x, y + 1) + Px(img, width, height, x + 1, y + 1))
    - (Px(img, width, height, x - 1, y - 1) + 2 * Px(img, width, height, x, y - 1) + Px(img, width, height, x + 1, y - 1))
  }

  lemma SquareBelow(g: int, bound: int)
    requires 0 <= bound && -bound <= g <= bound
    ensures 0 <= g * g <= bound * bound
  {
    var a := if g < 0 then -g else g;
    assert g * g == a * a;
    MulLeft(a, bound, a);
    MulLeft(a, bound, bound);
  }

  /** `gx*gx + gy*gy` for two sums in [-1020, 1020] is at most 2,080,800 and
      so never overflows a signed 32-bit `int`. */
  lemma SquareSumFitsInt(gx: int, gy: int)
    requires -1020 <= gx <= 1020 && -1020 <= gy <= 1020
    ensures 0 <= gx * gx + gy * gy <= 2080800 <= IntMax
  {
    SquareBelow(gx, 1020);
    SquareBelow(gy, 1020);
  }

  /** The squared gradient magnitude of an interior pixel. */
  function SquaredMagnitude(img: seq<Byte>, width: int, height: int, x: int, y: int): (s: nat)
    requires Shape(img, width, height) && Interior(width, height, x, y)
    ensures s <= 2080800
  {
    var gx := Gx(img, width, height, x, y);
    var gy := Gy(img, width, height, x, y);
    SquareSumFitsInt(gx, gy);
    gx * gx + gy * gy
  }

  /** The integer floor square root: what truncating `sqrt` of a small
      non-negative integer to `int` yields. */
  function FloorSqrt(n: nat): (r: nat)
    ensures r * r <= n < (r + 1) * (r + 1)
    decreases n
  {
    if n < 4 then
      (if n == 0 then 0 else 1)
    else
      var t := FloorSqrt(n / 4);
      RootDoubling(n, t);
      if (2 * t + 1) * (2 * t + 1) <= n then 2 * t + 1 else 2 * t
  }

  /** If `t` is the floor square root of `n / 4`, then that of `n` is `2t` or
      `2t + 1`. */
  lemma RootDoubling(n: nat, t: nat)
    requires t * t <= n / 4 < (t + 1) * (t + 1)
    ensures (2 * t) * (2 * t) <= n < (2 * t + 2) * (2 * t + 2)
  {
    var q := n / 4;
    assert n == 4 * q + n % 4 && n % 4 < 4;
    assert (2 * t) * (2 * t) == 4 * (t * t);
    assert (2 * t + 2) * (2 * t + 2) == 4 * ((t + 1) * (t + 1));
    assert q + 1 <= (t + 1) * (t + 1);
  }

  lemma SquareMono(a: nat, b: nat)
    requires a <= b
    ensures a * a <= b * b
  {
    MulLeft(a, b, a);
    MulLeft(a, b, b);
  }

  /** `FloorSqrt(n)` is the only `r` with `r*r <= n < (r+1)*(r+1)`. */
  lemma FloorSqrtUnique(n: nat, r: nat)
    requires r * r <= n < (r + 1) * (r + 1)
    ensures FloorSqrt(n) == r
  {
    var f := FloorSqrt(n);
    if f < r {
      SquareMono(f + 1, r);
    } else if r < f {
      SquareMono(r + 1, f);
    }
  }

  /** The clamp of `if (sum > 255) sum = 255;`: the smaller of `m` and 255. */
  function Clamp(m: nat): (b: Byte)
    ensures b <= m && (b == m || b == 255)
  {
    if m > 255 then 255 else m
  }

  /** The byte stored for an interior pixel: the truncated gradient magnitude,
      clamped to 255. */
  function EdgeAt(img: seq<Byte>, width: int, height: int, x: int, y: int): (b: Byte)
    requires Shape(img, width, height) && Interior(width, height, x, y)
    ensures b * b <= SquaredMagnitude(img, width, height, x, y)
    ensures b < 255 ==> SquaredMagnitude(img, width, height, x, y) < (b + 1) * (b + 1)
    ensures b == 255 <==> SquaredMagnitude(img, width, height, x, y) >= 255 * 255
  {
    var s := SquaredMagnitude(img, width, height, x, y);
    ClampedRoot(s);
    Clamp(FloorSqrt(s))
  }

  lemma ClampedRoot(s: nat)
    ensures Clamp(FloorSqrt(s)) == 255 <==> s >= 255 * 255
  {
    var m := FloorSqrt(s);
    if m >= 255 {
      SquareMono(255, m);
    } else {
      SquareMono(m + 1, 255);
    }
  }

  /** Clamping: once the truncated magnitude exceeds 255, that is, once
      `gx*gx + gy*gy >= 256*256`, exactly 255 is stored. */
  lemma EdgeSaturates(img: seq<Byte>, width: int, height: int, x: int, y: int)
    requires Shape(img, width, height) && Interior(width, height, x, y)
    requires FloorSqrt(SquaredMagnitude(img, width, height, x, y)) > 255
    ensures EdgeAt(img, width, height, x, y) == 255
    ensures SquaredMagnitude(img, width, height, x, y) >= 256 * 256
  {
    var s := SquaredMagnitude(img, width, height, x, y);
    SquareMono(256, FloorSqrt(s));
  }

  /** Below the clamp the stored byte is exactly the truncated magnitude. */
  lemma EdgeBelowClamp(img: seq<Byte>, width: int, height: int, x: int, y: int)
    requires Shape(img, width, height) && Interior(width, height, x, y)
    requires SquaredMagnitude(img, width, height, x, y) < 255 * 255
    ensures EdgeAt(img, width, height, x, y) == FloorSqrt(SquaredMagnitude(img, width, height, x, y))
  {
    var s := SquaredMagnitude(img, width, height, x, y);
    var b := EdgeAt(img, width, height, x, y);
    FloorSqrtUnique(s, b);
  }

  /** The 3x3 neighbourhood of an interior pixel, row by row from the upper
      left corner: indices 0..2 are row `y-1`, 3..5 row `y`, 6..8 row `y+1`. */
  function Window(img: seq<Byte>, width: int, height: int, x: int, y: int): (w: seq<Byte>)
    requires Shape(img, width, height) && Interior(width, height, x, y)
    ensures |w| == 9
  {
    [Px(img, width, height, x - 1, y - 1), Px(img, width, height, x, y - 1), Px(img, width, height, x + 1, y - 1),
     Px(img, width, height, x - 1, y), Px(img, width, height, x, y), Px(img, width, height, x + 1, y),
     Px(img, width, height, x - 1, y + 1), Px(img, width, height, x, y + 1), Px(img, width, height, x + 1, y + 1)]
  }

  /** A neighbourhood whose nine bytes are all equal has no gradient, so 0 is
      stored. */
  lemma FlatNeighbourhood(img: seq<Byte>, width: int, height: int, x: int, y: int)
    requires Shape(img, width, height) && Interior(width, height, x, y)
    requires forall i :: 0 <= i < 9 ==> Window(img, width, height, x, y)[i] == Window(img, width, height, x, y)[0]
    ensures Gx(img, width, height, x, y) == 0 && Gy(img, width, height, x, y) == 0
    ensures EdgeAt(img, width, height, x, y) == 0
  {
    var w := Window(img, width, height, x, y);
    assert w[1] == w[0] && w[2] == w[0] && w[3] == w[0] && w[5] == w[0];
    assert w[6] == w[0] && w[7] == w[0] && w[8] == w[0];
    assert SquaredMagnitude(img, width, height, x, y) == 0;
    FloorSqrtUnique(0, 0);
  }

  /** A vertical step from 0 (left column) to 255 (right column) across an
      interior pixel saturates the output at 255. */
  lemma VerticalStepSaturates(img: seq<Byte>, width: int, height: int, x: int, y: int)
    requires Shape(img, width, height) && Interior(width, height, x, y)
    requires Window(img, width, height, x, y)[0] == Window(img, width, height, x, y)[3] == Window(img, width, height, x, y)[6] == 0
    requires Window(img, width, height, x, y)[2] == Window(img, width, height, x, y)[5] == Window(img, width, height, x, y)[8] == 255
    ensures Gx(img, width, height, x, y) == 1020
    ensures EdgeAt(img, width, height, x, y) == 255
  {
    var gy := Gy(img, width, height, x, y);
    SquareBelow(gy, 1020);
    assert SquaredMagnitude(img, width, height, x, y) >= 1020 * 1020;
  }
}
