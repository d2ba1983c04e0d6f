/** `process_image` without its I/O, timing and thread machinery.

    The threads write disjoint bands of the output buffer and only read the
    input, and the byte written to a cell depends on the input alone, so the
    threads' combined effect is that of running the workers one after the
    other in thread order, which is what this model does. */
module Orchestrator {
  import opened Kernel
  import opened Worker
  import opened RowPartition

  /** Every band in `bands` may be handed to a worker. */
  predicate BandsFit(height: int, bands: seq<Band>)
  {
    forall i :: 0 <= i < |bands| ==> ValidRows(height, bands[i].begin, bands[i].end)
  }

  /** Flat index `k` is a cell that the worker of some band in `bands` writes. */
  predicate Covered(width: int, bands: seq<Band>, k: int)
    requires width >= 1
  {
    exists i :: 0 <= i < |bands| && InBand(width, bands[i].begin, bands[i].end, k)
  }

  /** A cell covered by a band that fits is an interior pixel. */
  lemma CoveredInterior(width: int, height: int, bands: seq<Band>, k: int)
    requires width >= 1 && BandsFit(height, bands) && Covered(width, bands, k)
    ensures Interior(width, height, k % width, k / width)
  {
    var i :| 0 <= i < |bands| && InBand(width, bands[i].begin, bands[i].end, k);
    assert ValidRows(height, bands[i].begin, bands[i].end);
  }

  /** A cell is covered by `bands` exactly when it is covered by all but the
      last band or by the last band. */
  lemma CoveredLast(width: int, bands: seq<Band>)
    requires width >= 1 && |bands| > 0
    ensures forall k :: Covered(width, bands, k) <==>
      Covered(width, bands[..|bands| - 1], k) || InBand(width, bands[|bands| - 1].begin, bands[|bands| - 1].end, k)
  {
    var n := |bands| - 1;
    forall k | Covered(width, bands, k)
      ensures Covered(width, bands[..n], k) || InBand(width, bands[n].begin, bands[n].end, k)
    {
      var i :| 0 <= i < |bands| && InBand(width, bands[i].begin, bands[i].end, k);
      if i < n {
        assert bands[..n][i] == bands[i];
      }
    }
    forall k | Covered(width, bands[..n], k)
      ensures Covered(width, bands, k)
    {
      var i :| 0 <= i < n && InBand(width, bands[..n][i].begin, bands[..n][i].end, k);
      assert bands[..n][i] == bands[i];
    }
  }

  /** The output buffer after the workers for `bands` have run in order,
      starting from `prev`: a cell that some band covers holds the kernel's
      byte for its pixel, every other cell keeps its value in `prev`. */
  function Apply(prev: seq<Byte>, img: seq<Byte>, width: int, height: int, bands: seq<Band>): (out: seq<Byte>)
    requires Shape(img, width, height) && |prev| == |img| && BandsFit(height, bands)
    ensures |out| == |prev|
    ensures forall k :: 0 <= k < |out| ==>
      out[k] == if Covered(width, bands, k)
        then (CoveredInterior(width, height, bands, k); EdgeAt(img, width, height, k % width, k / width))
        else prev[k]
    decreases |bands|
  {
    if bands == [] then prev
    else
      var last := bands[|bands| - 1];
      CoveredLast(width, bands);
      BandImage(Apply(prev, img, width, height, bands[..|bands| - 1]), img, width, height, last.begin, last.end)
  }

  /** The threads of `process_image`, run one after the other over the bands
      in `threadData`: each is `sobel_filter` on its own band. */
  method RunWorkers(image: array<Byte>, result: array<Byte>, width: int, height: int, threadData: array<Band>)
    requires image != result
    requires Shape(image[..], width, height) && result.Length == image.Length
    requires BandsFit(height, threadData[..])
    modifies result
    ensures image[..] == old(image[..])
    ensures result[..] == Apply(old(result[..]), image[..], width, height, threadData[..])
  {
    for i := 0 to threadData.Length
      invariant result[..] == Apply(old(result[..]), image[..], width, height, threadData[..i])
    {
      assert ValidRows(height, threadData[..][i].begin, threadData[..][i].end);
      SobelFilter(image, result, width, height, threadData[i].begin, threadData[i].end);
      assert threadData[..i + 1][..i] == threadData[..i];
    }
    assert threadData[..threadData.Length] == threadData[..];
  }

  /** Every band of the partition may be handed to a worker. */
  lemma PartitionFits(height: int, threads: int)
    requires height >= 1 && threads >= 1
    ensures BandsFit(height, Partition(height, threads))
  {
    forall i | 0 <= i < threads
      ensures ValidRows(height, Partition(height, threads)[i].begin, Partition(height, threads)[i].end)
    {
      BandsInterior(height, threads, i);
    }
  }

  /** The first `i` threads of the partition together filter exactly the rows
      `[1, i * d)`. */
  lemma {:induction false} PartitionPrefixApplied(prev: seq<Byte>, img: seq<Byte>, width: int, height: int, threads: int, i: int)
    requires Shape(img, width, height) && |prev| == |img| && threads >= 1 && 0 <= i <= threads
    ensures BandsFit(height, Partition(height, threads)[..i])
    ensures ValidRows(height, 1, i * RowStep(height, threads))
    ensures Apply(prev, img, width, height, Partition(height, threads)[..i])
         == BandImage(prev, img, width, height, 1, i * RowStep(height, threads))
  {
    var bands := Partition(height, threads);
    var d := RowStep(height, threads);
    PartitionFits(height, threads);
    assert BandsFit(height, bands[..i]);
    MulLeft(i, threads, d);
    if i == 0 {
      EmptyBand(prev, img, width, height, 1, 0);
    } else {
      PartitionPrefixApplied(prev, img, width, height, threads, i - 1);
      assert bands[..i][..i - 1] == bands[..i - 1];
      var done := BandImage(prev, img, width, height, 1, (i - 1) * d);
      var b := bands[i - 1];
      ClampNeverFires(height, threads, i - 1);
      if i == 1 {
        EmptyBand(prev, img, width, height, 1, 0);
      } else if (i - 1) * d >= 1 {
        AdjacentBands(prev, img, width, height, 1, (i - 1) * d, i * d);
      } else {
        assert d == 0;
        EmptyBand(done, img, width, height, b.begin, b.end);
      }
    }
  }

  /** All threads of the partition together filter exactly the rows
      `[1, threads * d)`; the rows `[threads * d, height - 1)` keep whatever
      the output buffer held before. */
  lemma PartitionApplied(prev: seq<Byte>, img: seq<Byte>, width: int, height: int, threads: int)
    requires Shape(img, width, height) && |prev| == |img| && threads >= 1
    ensures BandsFit(height, Partition(height, threads))
    ensures ValidRows(height, 1, threads * RowStep(height, threads))
    ensures Apply(prev, img, width, height, Partition(height, threads))
         == BandImage(prev, img, width, height, 1, threads * RowStep(height, threads))
  {
    PartitionPrefixApplied(prev, img, width, height, threads, threads);
    assert Partition(height, threads)[..threads] == Partition(height, threads);
  }

  /** `process_image` between allocating the output buffer and writing it
      out: partition the rows, run every thread on its band, join.  `result`
      is the freshly allocated buffer, whose initial contents are arbitrary. */
  method ProcessImage(image: array<Byte>, result: array<Byte>, width: int, height: int, threads: int)
    requires image != result
    requires Shape(image[..], width, height) && result.Length == image.Length
    requires threads >= 1
    modifies result
    ensures image[..] == old(image[..])
    ensures ValidRows(height, 1, threads * RowStep(height, threads))
    ensures result[..] == BandImage(old(result[..]), image[..], width, height, 1, threads * RowStep(height, threads))
  {
    var threadData := PartitionRows(height, threads);
    PartitionApplied(old(result[..]), image[..], width, height, threads);
    RunWorkers(image, result, width, height, threadData);
  }

  /** A pixel of an interior row at or below row `threads * d` is never
      filtered: its output cell keeps its initial value. */
  lemma SkippedRowsUnfiltered(prev: seq<Byte>, img: seq<Byte>, width: int, height: int, threads: int, x: int, y: int)
    requires Shape(img, width, height) && |prev| == |img| && threads >= 1
    requires 0 <= x < width && threads * RowStep(height, threads) <= y < height
    ensures BandsFit(height, Partition(height, threads))
    ensures 0 <= y * width + x < |prev|
    ensures Apply(prev, img, width, height, Partition(height, threads))[y * width + x] == prev[y * width + x]
  {
    PartitionApplied(prev, img, width, height, threads);
    BandImageAt(prev, img, width, height, 1, threads * RowStep(height, threads), x, y);
  }

  /** Every band of the corrected partition may be handed to a worker. */
  lemma CorrectedFits(height: int, threads: int)
    requires height >= 1 && threads >= 1
    ensures BandsFit(height, CorrectedPartition(height, threads))
  {
    PartitionFits(height, threads);
    var bands := CorrectedPartition(height, threads);
    forall i | 0 <= i < threads
      ensures ValidRows(height, bands[i].begin, bands[i].end)
    {
      assert i < threads - 1 ==> bands[i] == Partition(height, threads)[i];
    }
  }

  /** With the corrected partition the threads filter every interior row:
      the output is the whole interior, whatever the number of threads. */
  lemma CorrectedApplied(prev: seq<Byte>, img: seq<Byte>, width: int, height: int, threads: int)
    requires Shape(img, width, height) && |prev| == |img| && threads >= 1
    ensures BandsFit(height, CorrectedPartition(height, threads))
    ensures Apply(prev, img, width, height, CorrectedPartition(height, threads))
         == BandImage(prev, img, width, height, 1, height - 1)
  {
    CorrectedFits(height, threads);
    var bands := CorrectedPartition(height, threads);
    var d := RowStep(height, threads);
    var n := threads - 1;
    PartitionPrefixApplied(prev, img, width, height, threads, n);
    assert bands[..n] == Partition(height, threads)[..n];
    var done := BandImage(prev, img, width, height, 1, n * d);
    MulLeft(n, threads, d);
    if n * d >= 1 {
      AdjacentBands(prev, img, width, height, 1, n * d, height - 1);
    } else {
      EmptyBand(prev, img, width, height, 1, n * d);
    }
  }

  /** With the corrected partition one thread and any other number of threads
      produce the same output. */
  lemma CorrectedThreadCountIrrelevant(prev: seq<Byte>, img: seq<Byte>, width: int, height: int, threads: int)
    requires Shape(img, width, height) && |prev| == |img| && threads >= 1
    ensures BandsFit(height, CorrectedPartition(height, 1)) && BandsFit(height, CorrectedPartition(height, threads))
    ensures Apply(prev, img, width, height, CorrectedPartition(height, threads))
         == Apply(prev, img, width, height, CorrectedPartition(height, 1))
  {
    CorrectedApplied(prev, img, width, height, threads);
    CorrectedApplied(prev, img, width, height, 1);
  }

  /** A single thread filters every interior row. */
  lemma OneThreadApplied(prev: seq<Byte>, img: seq<Byte>, width: int, x: int, y: int)
    requires Shape(img, width, 40) && |prev| == |img| && 1 <= x < width - 1 && 1 <= y < 39
    ensures BandsFit(40, Partition(40, 1))
    ensures 0 <= y * width + x < |prev|
    ensures Apply(prev, img, width, 40, Partition(40, 1))[y * width + x] == EdgeAt(img, width, 40, x, y)
  {
    assert RowStep(40, 1) == 39;
    PartitionApplied(prev, img, width, 40, 1);
    BandImageAt(prev, img, width, 40, 1, 39, x, y);
  }

  /** As written, one thread filters all interior rows while 32 threads skip
      some: on a 40-row image the outputs differ at row 32 unless that row
      filters to its initial contents. */
  lemma ThreadCountChangesOutput(prev: seq<Byte>, img: seq<Byte>, width: int, x: int)
    requires Shape(img, width, 40) && |prev| == |img| && 1 <= x < width - 1
    ensures BandsFit(40, Partition(40, 1)) && BandsFit(40, Partition(40, ThreadCount))
    ensures 0 <= 32 * width + x < |prev|
    ensures Apply(prev, img, width, 40, Partition(40, 1))[32 * width + x] == EdgeAt(img, width, 40, x, 32)
    ensures Apply(prev, img, width, 40, Partition(40, ThreadCount))[32 * width + x] == prev[32 * width + x]
  {
    OneThreadApplied(prev, img, width, x, 32);
    SkippedRowsUnfiltered(prev, img, width, 40, ThreadCount, x, 32);
  }
}
