# Multi-threaded Sobel edge detection, modelled in Dafny

The program loads a grayscale image and computes a Sobel edge map. A fixed
pool of `THREAD_COUNT` (32) POSIX threads does the work. Each thread gets a
contiguous band of rows, `[begin, end)`. For every interior pixel `(x, y)` of
its band, it computes two integer gradient sums from the 3x3 neighbourhood
in the input buffer:

- `gx`: the right column minus the left column, weights 1, 2, 1;
- `gy`: the lower row minus the upper row, weights 1, 2, 1.

It then takes `sqrt(gx*gx + gy*gy)`, truncates it to `int`, clamps it to 255
and stores the byte at the same index of the output buffer. `process_image`
computes the bands from `delta_y = (height - 1) / THREAD_COUNT`. Thread 0
gets `[1, delta_y)`. Each later thread starts where the previous one ended
and ends `delta_y` rows further on, clamped to `height - 1`. The threads
write without locks, so it is the disjointness of the bands that keeps the
writes safe.

The model has four modules:

- `Kernel` (`kernel.dfy`): the per-pixel kernel as pure functions. The
  truncated `sqrt` is the integer floor square root `FloorSqrt`. The gradient
  intermediates `gx`, `gy` and `gx*gx + gy*gy` are proved to fit in 32 bits.
  The flat indices are proved to lie below `width * height`, whose own fit in
  32 bits is not checked (see "Left out").
- `Worker` (`worker.dfy`): the band loop of `sobel_filter`, a method over
  arrays. It is specified by `BandImage`, the output buffer after one band
  has been processed.
- `RowPartition` (`partition.dfy`): the band computation of `process_image`,
  both as the loop over `y1`/`y2` that fills `thread_data` and in closed form
  (`Partition`), with its ordering, disjointness and coverage lemmas.
- `Orchestrator` (`orchestrator.dfy`): `process_image` without I/O. It
  partitions the rows, runs the workers one after the other in thread order,
  and says which rows of the output end up filtered.

The model follows what the code does in two places where a reader might
expect otherwise:

- `int sum = sqrt(...)` at main.c:42 truncates the `double` root by
  assignment; it does not round it. `gx*gx + gy*gy = 8` has a root of about
  2.83, which stores 2, not 3. `Kernel.FloorSqrt` is the truncated root.
- The bands cover only the rows `[1, THREAD_COUNT * delta_y)`. The comment on
  main.c:110 says the last thread takes the remaining rows, but the clamp
  there never fires for a band a thread receives (see "Findings").

Two declarations are not functions and have no row of their own below:
`RowPartition.ThreadCount` is `THREAD_COUNT` (main.c:13), and
`RowPartition.Band` is the `begin`/`end` pair of `ThreadData`
(main.c:21-22), the only fields of it the threads' output depends on.

## Model

| member | source | states |
|---|---|---|
| `Kernel.CellInBounds` | main.c:37-40 | the flat index `r*width + c` of any cell of a `width` x `height` raster lies in `[0, width*height)` |
| `Kernel.NeighbourhoodInBounds` | main.c:34-40 | for `1 <= x <= width-2` and `1 <= y <= height-2`, each of the eight neighbour indices the kernel reads lies in `[0, width*height)` |
| `Kernel.Px` | main.c:37-40 | the pixel in column `c` of row `r` is the byte at flat index `r*width + c` of the row-major buffer, the index every read of the kernel uses; the index is in bounds (`Kernel.CellInBounds`) |
| `Kernel.Gx` | main.c:37-38 | the horizontal Sobel sum of any interior pixel lies in `[-1020, 1020]` |
| `Kernel.Gy` | main.c:39-40 | the vertical Sobel sum of any interior pixel lies in `[-1020, 1020]` |
| `Kernel.SquareSumFitsInt` | main.c:42 | for sums in `[-1020, 1020]`, `gx*gx + gy*gy` lies in `[0, 2080800]`, below the largest 32-bit `int`, so the C arithmetic does not overflow |
| `Kernel.SquaredMagnitude` | main.c:37-42 | the squared magnitude of an interior pixel is at most 2,080,800 |
| `Kernel.FloorSqrt` | main.c:42 | the result `r` satisfies `r*r <= n < (r+1)*(r+1)`: the truncated square root |
| `Kernel.FloorSqrtUnique` | main.c:42 | any `r` with `r*r <= n < (r+1)*(r+1)` equals `FloorSqrt(n)`, so the truncated root is determined uniquely |
| `Kernel.Clamp` | main.c:43 | the result is at most the input and either equals it or is 255, which makes it `min(m, 255)` |
| `Kernel.ClampedRoot` | main.c:42-43 | the clamped root of `s` is 255 exactly when `s >= 255*255` |
| `Kernel.EdgeAt` | main.c:37-44 | the stored byte `b` satisfies `b*b <= gx²+gy²`; if `b < 255` then `gx²+gy² < (b+1)²`; and `b == 255` exactly when `gx²+gy² >= 255²` |
| `Kernel.EdgeSaturates` | main.c:42-43 | when the truncated magnitude exceeds 255, the stored byte is exactly 255 and `gx²+gy² >= 256²` |
| `Kernel.EdgeBelowClamp` | main.c:42-43 | when `gx²+gy² < 255²`, the stored byte is exactly the truncated magnitude |
| `Kernel.FlatNeighbourhood` | main.c:37-42 | if all nine neighbourhood bytes are equal, then `gx = gy = 0` and the stored byte is 0 |
| `Kernel.VerticalStepSaturates` | main.c:37-44 | a 0 left column and a 255 right column give `gx = 1020`, and the stored byte is 255 |
| `Worker.PixelGradient` | main.c:37-43 | reading the nine neighbours from the input array as the C code does yields exactly `EdgeAt` of the pixel |
| `Worker.SobelFilter` | main.c:34-46 | after the band loop, the output equals `BandImage` of its previous contents: cells of rows `[begin, end)` in interior columns hold the kernel's byte and all other cells are unchanged; the input array is unchanged |
| `Worker.BandImage` | main.c:34-46 | the output after one worker's band, one cell per input cell; `Worker.SobelFilter` proves the band loop computes it, `Worker.BandImageAt` gives it pixel by pixel, and `Worker.EmptyBand`, `Worker.AdjacentBands` and `Worker.BandsCommute` say how bands compose |
| `Worker.BandImageAt` | main.c:34-46 | cell `(x, y)` after a band holds `EdgeAt(x, y)` when `begin <= y < end` and `1 <= x < width-1`; otherwise it holds its previous value, which covers border columns 0 and `width-1` and rows outside the band |
| `Worker.EmptyBand` | main.c:34 | a band with `begin >= end` writes nothing |
| `Worker.AdjacentBands` | main.c:34-46 | processing `[a, b)` and then `[b, c)` has the same effect as processing `[a, c)` |
| `Worker.BandsCommute` | main.c:34-46 | running two workers in either order gives the same output, because each written byte depends only on the input |
| `Worker.BandPrefixStep` | main.c:35-44 | writing the kernel's byte at `(x, y)` extends the loop's row-major prefix of finished cells by exactly that cell |
| `Worker.BandPrefixNextRow` | main.c:34-35 | the cells between the last interior column of one row and the first interior column of the next are outside the band |
| `RowPartition.Partition` | main.c:80-111 | the `THREAD_COUNT` bands of the partition loop in closed form, one per thread; `RowPartition.PartitionRows` proves the loop computes it, and the lemmas below state its chaining, ordering, disjointness and coverage |
| `RowPartition.RowStep` | main.c:80 | `delta_y = (height-1)/threads` satisfies `threads*d <= height-1 < threads*(d+1)` |
| `RowPartition.PartitionRows` | main.c:80-111 | the loop over `y1`/`y2` fills `thread_data` with exactly the closed-form partition (`begin_0 = 1`, `begin_i = end_{i-1}`, `end_i = min((i+1)*d, height-1)`) |
| `RowPartition.ClampNeverFires` | main.c:107-111 | for every thread `i`, `end_i = (i+1)*d <= height-1` and `begin_i = i*d` for `i > 0`, so the clamp never changes a band a thread receives |
| `RowPartition.NextBand` | main.c:107-111 | one loop step: the next band starts at this band's end and ends at `min(end + d, height-1)` |
| `RowPartition.BandsChained` | main.c:81-82 | thread 0 starts at row 1 and every later band starts where the previous one ends |
| `RowPartition.BandsInterior` | main.c:80-111 | every band ends at or before `height-1`; a non-empty band starts at row 1 or later; row 0 and row `height-1` are in no band |
| `RowPartition.BandsAscending` | main.c:107-111 | band ends never decrease, and a non-empty earlier band ends no later than a non-empty later band begins |
| `RowPartition.BandsDisjoint` | main.c:95-96 | no row lies in the bands of two different threads |
| `RowPartition.CoveredRowsInRange` | main.c:80-111 | every row that some thread processes lies in `[1, threads*d)` |
| `RowPartition.RangeRowsCovered` | main.c:80-111 | every row in `[1, threads*d)` is processed by thread `row / d` |
| `RowPartition.Coverage` | main.c:80-111 | a row is processed by some thread if and only if `1 <= row < threads*d` |
| `RowPartition.FewRowsNoWork` | main.c:80-82 | when `height-1 < threads`, then `d = 0` and no band contains any row |
| `RowPartition.TailRowsSkipped` | main.c:107-111 | with 40 rows and 32 threads, interior row 32 is in no thread's band |
| `RowPartition.CorrectedPartition` | main.c:107-111 | the partition as the comment on main.c:110 intends: the bands of `Partition`, with the last one extended to `height-1`; `RowPartition.CorrectedCoverage`, `RowPartition.CorrectedDisjoint` and `Orchestrator.CorrectedApplied` state its coverage, disjointness and output |
| `RowPartition.CorrectedCoverage` | main.c:109-110 | with the last band extended to `height-1`, a row is processed if and only if `1 <= row < height-1` |
| `RowPartition.CorrectedDisjoint` | main.c:109-110 | the bands of the corrected partition are still pairwise disjoint |
| `Orchestrator.Apply` | main.c:90-117 | the output after the threads for `bands` have all run: a cell that some band covers holds the kernel's byte `EdgeAt` for its pixel, and every other cell keeps its initial value; proved by induction over the threads through its recursive calls |
| `Orchestrator.RunWorkers` | main.c:90-117 | running the workers over `thread_data` in order leaves the output equal to `Apply` of the bands and leaves the input unchanged |
| `Orchestrator.PartitionFits` | main.c:80-111 | every band of the partition can be handed to a worker: a non-empty band lies within `[1, height-1)` |
| `Orchestrator.PartitionPrefixApplied` | main.c:90-117 | the first `i` threads together filter exactly the rows `[1, i*d)` |
| `Orchestrator.PartitionApplied` | main.c:80-117 | all threads together filter exactly the rows `[1, threads*d)` |
| `Orchestrator.ProcessImage` | main.c:72-117 | after partitioning and running all threads, the output equals `BandImage` over rows `[1, threads*d)` of the buffer's initial contents; the input is unchanged |
| `Orchestrator.SkippedRowsUnfiltered` | main.c:80-117 | every cell in a row at or below `threads*d` keeps its initial, uninitialised value |
| `Orchestrator.CorrectedFits` | main.c:109-110 | every band of the corrected partition can be handed to a worker |
| `Orchestrator.CorrectedApplied` | main.c:90-117 | with the corrected partition, the threads filter every interior row: the output is `BandImage` over `[1, height-1)` |
| `Orchestrator.CorrectedThreadCountIrrelevant` | main.c:13 | with the corrected partition, any thread count gives the same output as a single thread |
| `Orchestrator.OneThreadApplied` | main.c:80-111 | with a single thread on a 40-row image, `delta_y = 39` and every interior cell holds the kernel's byte |
| `Orchestrator.ThreadCountChangesOutput` | main.c:13 | as written, on a 40-row image one thread filters cell `(x, 32)` while 32 threads leave it at its initial value |

## Left out

- Image loading and saving are left out. These are `stbi_load`, `stbi_write_png`, `stbi_image_free` and `stbi_failure_reason`, foreign library calls on files. The input arrives as an array with its `width` and `height`.
- Thread creation and joining are left out (`pthread_create`, `pthread_join`, `pthread_exit`). The workers run one after the other in thread order. `Worker.BandsCommute` shows that the order does not change the output.
- The failure paths that call `exit(1)` are left out: failed image load, failed `malloc`, failed thread creation. They end the process without computing anything.
- `clock_gettime` and the elapsed-time arithmetic in `double` are left out. They are wall-clock readings with no effect on the output.
- All `printf` and `fprintf` output is left out.
- `main` is left out. It only hard-codes the two file paths and opens a log file that it never writes.
- The `thread_id`, `image`, `result_image`, `width` and `height` fields of `ThreadData` are left out. They are the same for every thread or equal to the thread's index. Only `begin` and `end` are modelled, as `Band`.
- The buffer from `malloc` is modelled as an array parameter with arbitrary contents. The contract relates the result to those contents and does not fix them to any value.
- `Kernel.FloorSqrt`: `double` `sqrt` followed by truncation to `int` is modelled as the integer floor square root, with no IEEE arithmetic. The argument is at most 2,080,800 (`Kernel.SquareSumFitsInt`). For integers that small, the correctly rounded `double` square root truncates to exactly the floor square root. That equivalence is argued here and not proved.
- `width * height` in the `malloc` size is not checked for 32-bit overflow. `Shape` takes the buffer length to be `width * height` as an unbounded integer.

## Findings

| source | as written | input that shows it | evidently intended | confidence | as-written member | corrected member |
|---|---|---|---|---|---|---|
| main.c:107-111 | the clamp to `height - 1` never extends the last band, so the bands cover only rows `[1, THREAD_COUNT * delta_y)` | `height = 40`, 32 threads: `delta_y = 1`, and interior rows 32 to 38 are never filtered | the last thread also processes the remaining rows up to `height - 1`, as the comment on line 110 says | high; not executed | `RowPartition.TailRowsSkipped` | `RowPartition.CorrectedCoverage` |
| main.c:80-82 | when `height - 1 < THREAD_COUNT`, `delta_y` is 0 and every band is empty | `height = 10`, 32 threads: no interior row is filtered | every interior row is filtered, however small the image | high; not executed | `RowPartition.FewRowsNoWork` | `Orchestrator.CorrectedApplied` |

`Orchestrator.ProcessImage` models the code as written, with the
`RowPartition.Partition` bands. `RowPartition.CorrectedPartition` keeps those
bands and extends the last one to `height - 1`, starting it at row 1 when
`delta_y` is 0. `Orchestrator.RunWorkers` accepts either partition.
`Orchestrator.CorrectedApplied` proves that the corrected bands filter every
interior row. `Orchestrator.CorrectedThreadCountIrrelevant` proves that the
thread count then no longer changes the output.
