/** The row partitioner of `process_image`.

    With `d = (height - 1) / threads` (`delta_y`), thread 0 gets rows
    `[1, d)`, and every later thread starts where the previous one ended and
    ends `d` rows further on, clamped to `height - 1`.  Since
    `threads * d <= height - 1`, the clamp never changes a band that is
    handed to a thread; the bands together cover exactly the rows
    `[1, threads * d)`, so the last `(height - 1) % threads` interior rows
    are never processed, and none at all when `height - 1 < threads`. */
module RowPartition {
  import opened Kernel

  /** `THREAD_COUNT`, the number of worker threads. */
  const ThreadCount: int := 32

  /** The half-open row range `[begin, end)` of one thread
      (`thread_data[i].begin`, `thread_data[i].end`). */
  datatype Band = Band(begin: int, end: int)

  predicate Contains(b: Band, row: int)
  {
    b.begin <= row < b.end
  }

  function Min(a: int, b: int): int
  {
    if a <= b then a else b
  }

  function Max(a: int, b: int): int
  {
    if a <= b then b else a
  }

  /** `delta_y`: the rows per thread, `(height - 1) / threads` rounded down
      (`height - 1` is not negative, so C's truncating division agrees). */
  function RowStep(height: int, threads: int): (d: nat)
    requires height >= 1 && threads >= 1
    ensures threads * d <= height - 1 < threads * (d + 1)
  {
    (height - 1) / threads
  }

  /** The bands the loop of `process_image` hands to the threads, in closed
      form: `begin` of thread 0 is 1, `begin` of thread `i > 0` is the `end`
      of thread `i - 1`, and `end` of thread `i` is `(i + 1) * d` clamped to
      `height - 1`. */
  function Partition(height: int, threads: int): (bands: seq<Band>)
    requires height >= 1 && threads >= 1
    ensures |bands| == threads
  {
    var d := RowStep(height, threads);
    seq(threads, i requires 0 <= i < threads =>
      Band(if i == 0 then 1 else Min(i * d, height - 1), Min((i + 1) * d, height - 1)))
  }

  /** The partition loop of `process_image`: `y1` and `y2` walk down the
      image, each thread's band is stored in `thread_data`. */
  method PartitionRows(height: int, threads: int) returns (threadData: array<Band>)
    requires height >= 1 && threads >= 1
    ensures fresh(threadData)
    ensures threadData[..] == Partition(height, threads)
  {
    ghost var bands := Partition(height, threads);
    var deltaY := (height - 1) / threads;
    var y1 := 1;
    var y2 := deltaY;
    ClampNeverFires(height, threads, 0);
    threadData := new Band[threads];
    for i := 0 to threads
      invariant i < threads ==> y1 == bands[i].begin && y2 == bands[i].end
      invariant forall j :: 0 <= j < i ==> threadData[j] == bands[j]
    {
      threadData[i] := Band(y1, y2);
      if i + 1 < threads {
        NextBand(height, threads, i);
      }
      y1 := y2;
      y2 := y2 + deltaY;
      if y2 > height - 1 {
        y2 := height - 1;
      }
    }
  }

  /** The clamp at the end of each step never shortens a band that a thread
      receives: band `i` is exactly `[i * d, (i + 1) * d)` (thread 0 starts
      at 1 instead), and it ends no lower than `height - 1`. */
  lemma ClampNeverFires(height: int, threads: int, i: int)
    requires height >= 1 && threads >= 1 && 0 <= i < threads
    ensures Partition(height, threads)[i].end == (i + 1) * RowStep(height, threads) <= height - 1
    ensures i > 0 ==> Partition(height, threads)[i].begin == i * RowStep(height, threads)
  {
    var d := RowStep(height, threads);
    MulLeft(i, i + 1, d);
    MulLeft(i + 1, threads, d);
  }

  /** One step of the partition loop: the next band starts where this one
      ends and ends `d` rows further on, clamped to `height - 1`. */
  lemma NextBand(height: int, threads: int, i: int)
    requires height >= 1 && threads >= 1 && 0 <= i < threads - 1
    ensures Partition(height, threads)[i + 1].begin == Partition(height, threads)[i].end
    ensures Partition(height, threads)[i + 1].end
         == Min(Partition(height, threads)[i].end + RowStep(height, threads), height - 1)
  {
    var d := RowStep(height, threads);
    ClampNeverFires(height, threads, i);
    ClampNeverFires(height, threads, i + 1);
    assert (i + 2) * d == (i + 1) * d + d;
  }

  /** Consecutive bands share an endpoint, starting from row 1. */
  lemma BandsChained(height: int, threads: int, i: int)
    requires height >= 1 && threads >= 1 && 0 <= i < threads
    ensures i == 0 ==> Partition(height, threads)[i].begin == 1
    ensures i > 0 ==> Partition(height, threads)[i].begin == Partition(height, threads)[i - 1].end
  {
  }

  /** No band reaches row 0 or row `height - 1`: a non-empty band lies
      within the interior rows `[1, height - 1)`. */
  lemma BandsInterior(height: int, threads: int, i: int)
    requires height >= 1 && threads >= 1 && 0 <= i < threads
    ensures Partition(height, threads)[i].end <= height - 1
    ensures Partition(height, threads)[i].begin < Partition(height, threads)[i].end ==>
      1 <= Partition(height, threads)[i].begin
    ensures !Contains(Partition(height, threads)[i], 0) && !Contains(Partition(height, threads)[i], height - 1)
  {
    var d := RowStep(height, threads);
    ClampNeverFires(height, threads, i);
    if i > 0 && Partition(height, threads)[i].begin < Partition(height, threads)[i].end {
      MulLeft(1, i, d);
    }
  }

  /** Bands are ascending: a later band never ends before an earlier one,
      and a non-empty later band starts no earlier than a non-empty earlier
      band ends. */
  lemma BandsAscending(height: int, threads: int, i: int, j: int)
    requires height >= 1 && threads >= 1 && 0 <= i < j < threads
    ensures Partition(height, threads)[i].end <= Partition(height, threads)[j].end
    ensures Partition(height, threads)[i].begin < Partition(height, threads)[i].end &&
            Partition(height, threads)[j].begin < Partition(height, threads)[j].end ==>
            Partition(height, threads)[i].end <= Partition(height, threads)[j].begin
  {
    var d := RowStep(height, threads);
    ClampNeverFires(height, threads, i);
    ClampNeverFires(height, threads, j);
    MulLeft(i + 1, j, d);
  }

  /** No row belongs to two threads: the bands are pairwise disjoint, which
      is what makes the unsynchronised writes of the threads safe. */
  lemma BandsDisjoint(height: int, threads: int, i: int, j: int, row: int)
    requires height >= 1 && threads >= 1 && 0 <= i < threads && 0 <= j < threads && i != j
    ensures !(Contains(Partition(height, threads)[i], row) && Contains(Partition(height, threads)[j], row))
  {
    if i < j {
      BandsAscending(height, threads, i, j);
    } else {
      BandsAscending(height, threads, j, i);
    }
  }

  lemma DivBounds(row: int, d: int)
    requires row >= 0 && d >= 1
    ensures 0 <= row / d && (row / d) * d <= row < (row / d + 1) * d
  {
    var q, r := row / d, row % d;
    assert q * d + r == row;
    assert (q + 1) * d == q * d + d;
  }

  /** Every row a thread processes lies in `[1, threads * d)`. */
  lemma CoveredRowsInRange(height: int, threads: int, i: int, row: int)
    requires height >= 1 && threads >= 1 && 0 <= i < threads
    requires Contains(Partition(height, threads)[i], row)
    ensures 1 <= row < threads * RowStep(height, threads)
  {
    var d := RowStep(height, threads);
    ClampNeverFires(height, threads, i);
    MulLeft(i + 1, threads, d);
    BandsInterior(height, threads, i);
  }

  /** Every row in `[1, threads * d)` is processed by the thread `row / d`. */
  lemma RangeRowsCovered(height: int, threads: int, row: int)
    requires height >= 1 && threads >= 1
    requires 1 <= row < threads * RowStep(height, threads)
    ensures RowStep(height, threads) >= 1
    ensures row / RowStep(height, threads) < threads
    ensures Contains(Partition(height, threads)[row / RowStep(height, threads)], row)
  {
    var d := RowStep(height, threads);
    var i := row / d;
    DivBounds(row, d);
    if i >= threads {
      MulLeft(threads, i, d);
    }
    ClampNeverFires(height, threads, i);
  }

  /** A row is processed by some thread exactly when it lies in
      `[1, threads * d)`. */
  lemma Coverage(height: int, threads: int, row: int)
    requires height >= 1 && threads >= 1
    ensures (exists i :: 0 <= i < threads && Contains(Partition(height, threads)[i], row))
        <==> 1 <= row < threads * RowStep(height, threads)
  {
    var bands := Partition(height, threads);
    if exists i :: 0 <= i < threads && Contains(bands[i], row) {
      var i :| 0 <= i < threads && Contains(bands[i], row);
      CoveredRowsInRange(height, threads, i, row);
    }
    if 1 <= row < threads * RowStep(height, threads) {
      RangeRowsCovered(height, threads, row);
    }
  }

  /** When there are fewer interior-plus-one rows than threads, `d` is 0 and
      every band is empty: no row is processed at all. */
  lemma FewRowsNoWork(height: int, threads: int, i: int, row: int)
    requires height >= 1 && threads >= 1 && height - 1 < threads && 0 <= i < threads
    ensures RowStep(height, threads) == 0
    ensures !Contains(Partition(height, threads)[i], row)
  {
    var d := RowStep(height, threads);
    if d >= 1 {
      MulLeft(1, d, threads);
    }
  }

  /** For a 40-row image and 32 threads, row 32 is an interior row and yet
      is processed by no thread (rows 32 to 38 are all skipped). */
  lemma TailRowsSkipped()
    ensures 1 <= 32 < 40 - 1 && forall i :: 0 <= i < ThreadCount ==> !Contains(Partition(40, ThreadCount)[i], 32)
  {
    assert RowStep(40, ThreadCount) == 1;
    Coverage(40, ThreadCount, 32);
  }

  /** The partition with the last band extended to `height - 1`, as the
      comment on the clamp in `process_image` says was meant; when `d` is 0
      the last band starts at row 1. */
  function CorrectedPartition(height: int, threads: int): (bands: seq<Band>)
    requires height >= 1 && threads >= 1
    ensures |bands| == threads
  {
    var d := RowStep(height, threads);
    Partition(height, threads)[threads - 1 := Band(Max(1, (threads - 1) * d), height - 1)]
  }

  /** The corrected partition covers every interior row, and only those. */
  lemma CorrectedCoverage(height: int, threads: int, row: int)
    requires height >= 1 && threads >= 1
    ensures (exists i :: 0 <= i < threads && Contains(CorrectedPartition(height, threads)[i], row))
        <==> 1 <= row < height - 1
  {
    var bands := CorrectedPartition(height, threads);
    var d := RowStep(height, threads);
    MulLeft(threads - 1, threads, d);
    if exists i :: 0 <= i < threads && Contains(bands[i], row) {
      var i :| 0 <= i < threads && Contains(bands[i], row);
      if i < threads - 1 {
        BandsInterior(height, threads, i);
      }
    }
    if 1 <= row < height - 1 {
      if row < (threads - 1) * d {
        MulLeft(threads - 1, threads, d);
        Coverage(height, threads, row);
        var i :| 0 <= i < threads && Contains(Partition(height, threads)[i], row);
        if i == threads - 1 {
          ClampNeverFires(height, threads, i);
        }
        assert Contains(bands[i], row);
      } else {
        assert Contains(bands[threads - 1], row);
      }
    }
  }

  /** The corrected bands are still pairwise disjoint and inside the
      interior rows. */
  lemma CorrectedDisjoint(height: int, threads: int, i: int, j: int, row: int)
    requires height >= 1 && threads >= 1 && 0 <= i < threads && 0 <= j < threads && i != j
    ensures !(Contains(CorrectedPartition(height, threads)[i], row) && Contains(CorrectedPartition(height, threads)[j], row))
  {
    var d := RowStep(height, threads);
    var last := threads - 1;
    if i != last && j != last {
      BandsDisjoint(height, threads, i, j, row);
    } else {
      var k := if i == last then j else i;
      ClampNeverFires(height, threads, k);
      MulLeft(k + 1, last, d);
    }
  }
}
