/** One worker of the filter: `sobel_filter` applied to its band of rows.

    A worker walks the rows `[begin, end)` of its band and, in each, the
    interior columns `[1, width - 1)`, writing the kernel's byte for each
    pixel into the output buffer at the same flat index.  It reads only the
    input buffer and writes only those cells of the output buffer. */
module Worker {
  import opened Kernel

  /** What a band must satisfy for its pixels to be interior: a non-empty
      band lies within rows `[1, height - 1)`.  An empty band may be anything. */
  predicate ValidRows(height: int, begin: int, end: int)
  {
    begin < end ==> 1 <= begin && end <= height - 1
  }

  /** Flat index `k` is a cell the band `[begin, end)` writes. */
  predicate InBand(width: int, begin: int, end: int, k: int)
    requires width >= 1
  {
    begin <= k / width < end && 1 <= k % width < width - 1
  }

  /** Row and column of a cell are recovered from its flat index. */
  lemma DivModCell(width: int, r: int, c: int)
    requires width >= 1 && 0 <= c < width
    ensures (r * width + c) / width == r && (r * width + c) % width == c
  {
    var k := r * width + c;
    var q, m := k / width, k % width;
    assert q * width + m == k;
    assert (r - q) * width == m - c;
    if r > q {
      MulLeft(1, r - q, width);
    } else if r < q {
      MulLeft(1, q - r, width);
    }
  }

  /** The output buffer after the band `[begin, end)` has been processed
      starting from `prev`: each written cell holds the kernel's byte for its
      pixel, every other cell keeps its previous value. */
  function BandImage(prev: seq<Byte>, img: seq<Byte>, width: int, height: int, begin: int, end: int): (out: seq<Byte>)
    requires Shape(img, width, height) && |prev| == |img| && ValidRows(height, begin, end)
    ensures |out| == |prev|
  {
    seq(|prev|, k requires 0 <= k < |prev| =>
      if InBand(width, begin, end, k) then EdgeAt(img, width, height, k % width, k / width) else prev[k])
  }

  /** The worker's frame, pixel by pixel: inside the band and off the border
      columns a cell holds the kernel's byte, everywhere else (columns 0 and
      `width - 1`, rows outside the band) it is unchanged. */
  lemma BandImageAt(prev: seq<Byte>, img: seq<Byte>, width: int, height: int, begin: int, end: int, x: int, y: int)
    requires Shape(img, width, height) && |prev| == |img| && ValidRows(height, begin, end)
    requires 0 <= x < width && 0 <= y < height
    ensures 0 <= y * width + x < |prev|
    ensures BandImage(prev, img, width, height, begin, end)[y * width + x] ==
      if begin <= y < end && 1 <= x < width - 1 then EdgeAt(img, width, height, x, y) else prev[y * width + x]
  {
    CellInBounds(width, height, y, x);
    DivModCell(width, y, x);
  }

  /** A band with `begin >= end` writes nothing. */
  lemma EmptyBand(prev: seq<Byte>, img: seq<Byte>, width: int, height: int, begin: int, end: int)
    requires Shape(img, width, height) && |prev| == |img|
    requires begin >= end
    ensures BandImage(prev, img, width, height, begin, end) == prev
  {
    var out := BandImage(prev, img, width, height, begin, end);
    forall k | 0 <= k < |prev|
      ensures out[k] == prev[k]
    {
    }
  }

  /** Two adjacent bands processed one after the other have the effect of
      their union. */
  lemma AdjacentBands(prev: seq<Byte>, img: seq<Byte>, width: int, height: int, a: int, b: int, c: int)
    requires Shape(img, width, height) && |prev| == |img|
    requires a <= b <= c && ValidRows(height, a, c)
    ensures BandImage(BandImage(prev, img, width, height, a, b), img, width, height, b, c)
         == BandImage(prev, img, width, height, a, c)
  {
    var mid := BandImage(prev, img, width, height, a, b);
    var lhs := BandImage(mid, img, width, height, b, c);
    var rhs := BandImage(prev, img, width, height, a, c);
    forall k | 0 <= k < |prev|
      ensures lhs[k] == rhs[k]
    {
    }
  }

  /** The order in which two workers run does not change the output: every
      written cell gets a value that depends on the input image alone. */
  lemma BandsCommute(prev: seq<Byte>, img: seq<Byte>, width: int, height: int, a: int, b: int, c: int, d: int)
    requires Shape(img, width, height) && |prev| == |img|
    requires ValidRows(height, a, b) && ValidRows(height, c, d)
    ensures BandImage(BandImage(prev, img, width, height, a, b), img, width, height, c, d)
         == BandImage(BandImage(prev, img, width, height, c, d), img, width, height, a, b)
  {
    var ab := BandImage(BandImage(prev, img, width, height, a, b), img, width, height, c, d);
    var ba := BandImage(BandImage(prev, img, width, height, c, d), img, width, height, a, b);
    forall k | 0 <= k < |prev|
      ensures ab[k] == ba[k]
    {
    }
  }

  /** The kernel of `sobel_filter` for one interior pixel, as the C code
      computes it: `gx` and `gy` from the nine neighbours read out of the input
      buffer, the truncated square root of `gx*gx + gy*gy`, clamped to 255. */
  method PixelGradient(image: array<Byte>, width: int, height: int, x: int, y: int) returns (sum: Byte)
    requires Shape(image[..], width, height) && Interior(width, height, x, y)
    ensures sum == EdgeAt(image[..], width, height, x, y)
  {
    NeighbourhoodInBounds(width, height, x, y);
    var gx: int := (image[(y - 1) * width + (x + 1)] as int + 2 * (image[y * width + (x + 1)] as int) + image[(y + 1) * width + (x + 1)]) -
                     (image[(y - 1) * width + (x - 1)] as int + 2 * (image[y * width + (x - 1)] as int) + image[(y + 1) * width + (x - 1)]);
    var gy: int := (image[(y + 1) * width + (x - 1)] as int + 2 * (image[(y + 1) * width + x] as int) + image[(y + 1) * width + (x + 1)]) -
                     (image[(y - 1) * width + (x - 1)] as int + 2 * (image[(y - 1) * width + x] as int) + image[(y - 1) * width + (x + 1)]);
    assert gx == Gx(image[..], width, height, x, y);
    assert gy == Gy(image[..], width, height, x, y);
    SquareSumFitsInt(gx, gy);
    var s: int := FloorSqrt(gx * gx + gy * gy);
    if s > 255 {
      s := 255;
    }
    sum := s;
  }

  /** The output buffer part-way through the band loop: the worker visits
      cells in increasing flat index, so after it has reached index `limit`
      exactly the band's cells below `limit` have been written. */
  ghost function BandPrefix(prev: seq<Byte>, img: seq<Byte>, width: int, height: int, begin: int, end: int, limit: int): (out: seq<Byte>)
    requires Shape(img, width, height) && |prev| == |img| && ValidRows(height, begin, end)
    ensures |out| == |prev|
  {
    seq(|prev|, k requires 0 <= k < |prev| =>
      if InBand(width, begin, end, k) && k < limit then EdgeAt(img, width, height, k % width, k / width) else prev[k])
  }

  /** A cell of a band lies strictly inside the rows of the band. */
  lemma BandCellIndex(width: int, begin: int, end: int, k: int)
    requires width >= 1 && begin >= 0 && InBand(width, begin, end, k)
    ensures begin * width + 1 <= k < end * width
  {
    var r, c := k / width, k % width;
    assert k == r * width + c;
    MulLeft(begin, r, width);
    MulLeft(r + 1, end, width);
  }

  lemma BandPrefixStart(prev: seq<Byte>, img: seq<Byte>, width: int, height: int, begin: int, end: int)
    requires Shape(img, width, height) && |prev| == |img| && ValidRows(height, begin, end)
    ensures BandPrefix(prev, img, width, height, begin, end, begin * width + 1) == prev
  {
    forall k | 0 <= k < |prev| && InBand(width, begin, end, k)
      ensures k >= begin * width + 1
    {
      BandCellIndex(width, begin, end, k);
    }
  }

  lemma BandPrefixComplete(prev: seq<Byte>, img: seq<Byte>, width: int, height: int, begin: int, end: int, limit: int)
    requires Shape(img, width, height) && |prev| == |img| && ValidRows(height, begin, end)
    requires limit >= end * width
    ensures BandPrefix(prev, img, width, height, begin, end, limit) == BandImage(prev, img, width, height, begin, end)
  {
    forall k | 0 <= k < |prev| && InBand(width, begin, end, k)
      ensures k < limit
    {
      BandCellIndex(width, begin, end, k);
    }
  }

  /** Writing the kernel's byte at cell `(x, y)` advances the prefix by one. */
  lemma BandPrefixStep(prev: seq<Byte>, img: seq<Byte>, width: int, height: int, begin: int, end: int, x: int, y: int)
    requires Shape(img, width, height) && |prev| == |img| && ValidRows(height, begin, end)
    requires begin <= y < end && 1 <= x < width - 1
    ensures 0 <= y * width + x < |prev|
    ensures BandPrefix(prev, img, width, height, begin, end, y * width + x)[y * width + x := EdgeAt(img, width, height, x, y)]
         == BandPrefix(prev, img, width, height, begin, end, y * width + x + 1)
  {
    CellInBounds(width, height, y, x);
    DivModCell(width, y, x);
  }

  /** The cells between the last interior column of row `y` and the first
      interior column of row `y + 1` are border cells, outside every band. */
  lemma BandPrefixNextRow(prev: seq<Byte>, img: seq<Byte>, width: int, height: int, begin: int, end: int, x: int, y: int)
    requires Shape(img, width, height) && |prev| == |img| && ValidRows(height, begin, end)
    requires 1 <= x && width - 1 <= x <= width
    ensures BandPrefix(prev, img, width, height, begin, end, y * width + x)
         == BandPrefix(prev, img, width, height, begin, end, (y + 1) * width + 1)
  {
    forall k | y * width + x <= k < (y + 1) * width + 1
      ensures !InBand(width, begin, end, k)
    {
      if k < (y + 1) * width {
        DivModCell(width, y, k - y * width);
      } else {
        DivModCell(width, y + 1, 0);
      }
    }
  }

  /** The band loop of `sobel_filter`: rows `[begin, end)`, interior columns,
      each output cell written from its input neighbourhood.  The input is
      only read. */
  method SobelFilter(image: array<Byte>, result: array<Byte>, width: int, height: int, begin: int, end: int)
    requires image != result
    requires Shape(image[..], width, height) && result.Length == image.Length
    requires ValidRows(height, begin, end)
    modifies result
    ensures image[..] == old(image[..])
    ensures result[..] == BandImage(old(result[..]), image[..], width, height, begin, end)
  {
    ghost var prev := old(result[..]);
    BandPrefixStart(prev, image[..], width, height, begin, end);
    var y := begin;
    while y < end
      invariant y == begin || begin < y <= end
      invariant result[..] == BandPrefix(prev, image[..], width, height, begin, end, y * width + 1)
    {
      var x := 1;
      while x < width - 1
        invariant 1 <= x && (x <= width - 1 || x == 1)
        invariant result[..] == BandPrefix(prev, image[..], width, height, begin, end, y * width + x)
      {
        var sum := PixelGradient(image, width, height, x, y);
        BandPrefixStep(prev, image[..], width, height, begin, end, x, y);
        result[y * width + x] := sum;
        x := x + 1;
      }
      BandPrefixNextRow(prev, image[..], width, height, begin, end, x, y);
      y := y + 1;
    }
    if begin < end {
      BandPrefixComplete(prev, image[..], width, height, begin, end, y * width + 1);
    } else {
      EmptyBand(prev, image[..], width, height, begin, end);
    }
  }
}
