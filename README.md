# knn-dpct: a verified model of the k-nearest-neighbour search

knn-dpct (`knn-dpct/main.cpp`) is a SYCL port of a brute-force
k-nearest-neighbour search.

- **Inputs.** A set of reference points (`ref`, `ref_nb` points) and a set of query points (`query`, `query_nb` points), both of dimension `dim`. Both are stored dimension-major: coordinate `d` of point `i` is at `d * nb + i`.
- **Output.** For every query point, the `k` nearest reference points and their distances. These are stored row-major in two `k`-by-`query_nb` buffers: neighbour `j` of query `i` is at `j * query_nb + i`.
- **GPU path (`knn_parallel`).** Three kernels run in sequence, then the first `k` rows are copied back to the host:
  - `cuComputeDistanceGlobal` fills the `ref_nb`-by-`query_nb` matrix of squared distances, one work-item per cell, one chunk of `BLOCK_DIM = 16` coordinates at a time;
  - `cuInsertionSort` moves, one work-item per column, the `k` smallest distances of the column into its first `k` rows, in order, and writes their row numbers into the index matrix;
  - `cuParallelSqrt` takes the square root of the first `k` rows.
- **Sequential path (`knn_c`).** For each query point it calls `compute_distance` against every reference point, then `modified_insertion_sort` (a top-k insertion sort that skips values not below the current k-th), then copies the first `k` slots out.
- **`main`.** Runs both paths and counts how many output indexes and distances agree.

The Dafny project under `src/` models all of this on exact integers:

| module | models |
|---|---|
| `Layout` | flat row-major and dimension-major addressing, columns of a flat buffer |
| `Distance` | points, the squared Euclidean distance and its properties |
| `Selection` | the specification of both selectors: the stable top-k of a column (the first `k` rows of a stable sort by value), and its uniqueness |
| `Window` | the state of a column while a shift loop runs |
| `DistanceKernel` | `cuComputeDistanceGlobal`, one work-item |
| `SortKernel` | `cuInsertionSort`, one work-item, in place on the two matrices |
| `SqrtKernel` | `cuParallelSqrt`, one work-item and the whole launch |
| `Oracle` | `compute_distance` and `modified_insertion_sort`, in place on arrays |
| `KnnSearch` | `knn_c` |
| `GpuSearch` | `knn_parallel`: the three launches and the copy back |
| `Agreement` | `main`'s comparison: both searches return the same indexes and the same distances |

Some parts of the system are parameters of the model:

- The square root is a parameter `root: int -> int`.
- `malloc` failure in `knn_c` is the parameter `allocOk`.

The agreement of the two searches is proved under one assumption: `root` is strictly increasing on non-negative numbers, as the square root is.

## Model

| member | source | states |
|---|---|---|
| Layout.SetCell | knn-dpct/main.cpp:100-101 | writing cell (row, col) at `row * width + col` is in bounds and changes exactly that one entry |
| Layout.OffsetFormula | knn-dpct/main.cpp:453-454 | the offset of (row, col) is `row * width + col` |
| Layout.OtherColumnUnchanged | knn-dpct/main.cpp:127-130 | a write confined to one column leaves every other column as it was |
| Layout.ColumnsDetermine | knn-dpct/main.cpp:541-549 | two buffers that agree column by column agree at every flat position |
| Distance.PartialSqDistPrefix | knn-dpct/main.cpp:384-388 | accumulating squared differences over the first n coordinates gives the squared distance of the n-prefixes, and over all `dim` of them the squared distance |
| Distance.SqDistNonNegative | knn-dpct/main.cpp:381-390 | a squared distance is never negative, so its root is always taken of a non-negative number |
| Distance.SqDistZeroIff | knn-dpct/main.cpp:381-390 | the distance is zero exactly when the two points coincide |
| Distance.SqDistSymmetric | knn-dpct/main.cpp:381-390 | the distance does not depend on which point is the reference |
| DistanceKernel.LoopTest | knn-dpct/main.cpp:56-71 | the loop test `a <= end_A` holds exactly while the current chunk starts inside the dimension |
| DistanceKernel.TileRead | knn-dpct/main.cpp:74-76 | the tile loader's flat read `a + wA * ty + tx` is in bounds and is the expected coordinate of the expected point |
| DistanceKernel.AccumulateCoordinate | knn-dpct/main.cpp:87-91 | one inner step adds the next coordinate's squared difference, or nothing once past `dim` (the zero-padded tiles) |
| DistanceKernel.AccumulateChunk | knn-dpct/main.cpp:72-91 | one chunk adds the squared differences of its up to 16 coordinates inside the dimension |
| DistanceKernel.ChunkedSsd | knn-dpct/main.cpp:51-97 | a work-item's `ssd` is the squared distance between its reference point and its query point when both exist, and 0 otherwise |
| DistanceKernel.ComputeDistanceGlobal | knn-dpct/main.cpp:32-102 | an in-range work-item writes the squared distance into its own cell and nowhere else; an out-of-range one writes nothing; every read of `A` and `B` is in bounds |
| DistanceKernel.UniqueOwner | knn-dpct/main.cpp:45-55 | each matrix cell is owned by exactly one (work-group, work-item) pair, in both directions |
| Window.Shifted | knn-dpct/main.cpp:146-149 | after the shift loop has moved rows top-1 down to j, rows j+1..top hold the old rows j..top-1 and the other rows are unchanged |
| Window.ShiftedStep | knn-dpct/main.cpp:413-415 | one more copy of row j-1 into row j extends the shifted region by one row |
| Selection.TopKSortedDistinct | knn-dpct/main.cpp:104-113 | a stable top-k lists k distinct rows whose distances ascend |
| Selection.TopKUnique | knn-dpct/main.cpp:541-549 | there is only one stable top-k, so two selectors that meet it return the same rows in the same order |
| Selection.TopKPrefix | knn-dpct/main.cpp:170-175 | the first m rows of a stable top-k are the stable top-m, so dropping the last slot keeps a top-k |
| Selection.TopKInsert | knn-dpct/main.cpp:146-151 | inserting row l behind every slot not greater than it, and before every greater slot, extends a top-m to the top-(m+1) of the rows up to l |
| Selection.TopKSkip | knn-dpct/main.cpp:404-408 | a row whose distance is not below the k-th leaves the top-k of the rows up to it unchanged |
| Selection.ScanInsert | knn-dpct/main.cpp:139-151 | the scan's slot (the first slot strictly greater than the row) is the stable insertion point |
| Selection.ScanReplace | knn-dpct/main.cpp:163-175 | inserting at the scan's slot and dropping the k-th yields the top-k of the rows up to l |
| Selection.ScanAppend | knn-dpct/main.cpp:152-154 | a row not below the last of a window that holds every earlier row goes behind the window |
| Selection.TopKFirst | knn-dpct/main.cpp:129-132 | row 0 alone is the top-1 of the first row |
| SortKernel.ScanSlot | knn-dpct/main.cpp:139-145 | the scan returns the first slot before `last` whose distance is strictly greater than `curr_dist`, or `last` if there is none |
| SortKernel.ShiftDown | knn-dpct/main.cpp:146-149 | rows i..top-1 of column x move down one row in both matrices, and nothing outside column x changes |
| SortKernel.ShiftAndPlace | knn-dpct/main.cpp:146-151 | shift, then write the distance and the row number at slot i, within column x only |
| SortKernel.PlaceFirstRow | knn-dpct/main.cpp:138-151 | in part 1, a row below the current maximum goes in at the scan's slot, and the window becomes that insertion |
| SortKernel.AppendFirstRow | knn-dpct/main.cpp:152-154 | in part 1, a row not below the maximum stays in place and only its row number is written |
| SortKernel.StartWindow | knn-dpct/main.cpp:127-132 | row 0 starts the window, and `max_dist` is its distance |
| SortKernel.InsertFirstRow | knn-dpct/main.cpp:136-156 | one part-1 iteration: the window of rows 0..l becomes their stable top-(l+1), and `max_dist` becomes its last distance |
| SortKernel.SortFirstRows | knn-dpct/main.cpp:127-157 | after part 1, the first k rows hold the stable top-k of rows 0..k-1, and the index rows hold their row numbers |
| SortKernel.ReplaceLaterRow | knn-dpct/main.cpp:162-175 | in part 2, a row below the k-th goes in at the scan's slot and the k-th drops out |
| SortKernel.InsertLaterRow | knn-dpct/main.cpp:160-177 | one part-2 iteration keeps the window the stable top-k of the rows seen, and keeps `max_dist` its k-th distance |
| SortKernel.InsertLaterRows | knn-dpct/main.cpp:158-178 | after part 2, the window is the stable top-k of the whole column |
| SortKernel.InsertionSort | knn-dpct/main.cpp:114-180 | work-item x leaves, in the first k rows of both matrices, the stable top-k of its column's original distances and their row numbers; rows k and beyond of its distance column keep their values, and no other column is written; a work-item past the width writes nothing |
| SqrtKernel.OffsetInjective | knn-dpct/main.cpp:197-198 | two work-items write the same cell only if they are the same work-item |
| SqrtKernel.ParallelSqrt | knn-dpct/main.cpp:190-199 | an in-range work-item replaces its own cell by its root and nothing else; an out-of-range one writes nothing |
| SqrtKernel.RootOneMore | knn-dpct/main.cpp:354-367 | running one more work-item, in row order, extends the rooted region by its cell |
| SqrtKernel.ParallelSqrtAll | knn-dpct/main.cpp:354-367 | after the launch, exactly the cells of rows 0..k-1 hold the root of their old value |
| Oracle.FlatRead | knn-dpct/main.cpp:386-387 | the read `d * ref_nb + ref_index` is in bounds and is coordinate d of the point |
| Oracle.ComputeDistance | knn-dpct/main.cpp:381-390 | the result is the root of the squared distance between the reference point and the query point |
| Oracle.ShiftWhileGreater | knn-dpct/main.cpp:411-416 | the shift loop moves exactly the slots greater than `curr_dist` down one, and stops behind a slot not greater than it, or at 0 |
| Oracle.ShiftOne | knn-dpct/main.cpp:413-415 | one step of the shift loop copies slot j-1 into slot j in both arrays, extending the shifted region by one slot |
| Oracle.Place | knn-dpct/main.cpp:419-420 | the final writes change exactly slot j of `dist` and of `index` |
| Oracle.ShiftStop | knn-dpct/main.cpp:411-416 | on an ascending window, the slot where the shift stops follows every value not greater than the current one |
| Oracle.InsertBeforeK | knn-dpct/main.cpp:398-420 | an iteration i < k inserts row i so that the window becomes the stable top-(i+1) of rows 0..i |
| Oracle.InsertFromK | knn-dpct/main.cpp:398-420 | an iteration i >= k keeps the window the stable top-k of rows 0..i, and a skipped row (not below the k-th) changes nothing |
| Oracle.InsertionStep | knn-dpct/main.cpp:398-421 | one iteration of the outer loop keeps the sort's invariant from i to i+1 |
| Oracle.ModifiedInsertionSort | knn-dpct/main.cpp:392-422 | the first min(k, length) slots hold the stable top-k of the original distances and `index` their original positions; later slots are untouched |
| KnnSearch.FillDistances | knn-dpct/main.cpp:443-446 | slot j of `dist` receives the distance to reference point j, and slot j of `index` receives j |
| KnnSearch.CopyOut | knn-dpct/main.cpp:452-455 | the first k slots become column i of the outputs, at `j * query_nb + i`, and no other column changes |
| KnnSearch.CopySlot | knn-dpct/main.cpp:453-454 | one copy step writes slot j of column i only |
| KnnSearch.AnsweredKept | knn-dpct/main.cpp:440-456 | writing only column i keeps every other query's answer intact |
| KnnSearch.AnswerQuery | knn-dpct/main.cpp:440-456 | one iteration of the query loop answers query i and writes only its column |
| KnnSearch.KnnC | knn-dpct/main.cpp:424-462 | on a failed allocation, knn_c returns false with no output written; otherwise it returns true and every column holds the stable top-k of its rooted distances and those distances |
| GpuSearch.ComputeOwnedCell | knn-dpct/main.cpp:300-316 | the owner of cell (r, q) writes the squared distance between reference point r and query point q into that cell and nothing else |
| GpuSearch.DistanceOneMore | knn-dpct/main.cpp:300-316 | running the owner of one more cell, in row order, extends the filled region by that cell |
| GpuSearch.ComputeDistanceAll | knn-dpct/main.cpp:270-317 | after kernel 1, column q of the matrix lists the squared distances from query point q to every reference point |
| GpuSearch.SortAll | knn-dpct/main.cpp:326-339 | after kernel 2, every column's index entries are the stable top-k of that column's distances, its first k rows hold those distances, and its later rows keep their values |
| GpuSearch.CopyPrefix | knn-dpct/main.cpp:369-372 | the host buffer receives the first n entries of the device buffer |
| GpuSearch.ColumnAnswered | knn-dpct/main.cpp:300-372 | after the three kernels and the copy, column q holds the stable top-k of its squared distances and their roots |
| GpuSearch.KnnParallel | knn-dpct/main.cpp:225-379 | every column q of the host outputs holds the stable top-k of the squared distances from query q, and their roots |
| Agreement.RootsKeepTopK | knn-dpct/main.cpp:389 | a strictly increasing root keeps the stable order of non-negative distances, so selecting before or after the root gives the same rows, in both directions |
| Agreement.ColumnsAgree | knn-dpct/main.cpp:541-549 | column by column, the GPU search and knn_c return the same neighbours in the same order, and the same distances |
| Agreement.OutputsAgree | knn-dpct/main.cpp:541-549 | the two searches' index buffers are equal, and so are their distance buffers |
| Agreement.MatchesAllIff | knn-dpct/main.cpp:545-546 | every index is counted as correct exactly when the two index buffers are equal |
| Agreement.EqualWithinPrecision | knn-dpct/main.cpp:542-543 | equal distances are all counted as precise for any non-negative precision |
| Agreement.CountCorrect | knn-dpct/main.cpp:541-549 | the tally counts the positions within precision and the positions with equal indexes |
| Agreement.CompareSearches | knn-dpct/main.cpp:507-549 | when knn_c succeeds, both outputs of the GPU search equal the ground truth, and both accuracies are 1 |

## Left out

- Floating point: all values are mathematical integers. `sqrtf` and `sycl::sqrt` are the parameter `root`. With real floats, rounding in the root can merge two distinct squared distances, so the index agreement holds only under the assumption that `root` is strictly increasing.
- Agreement.CountCorrect: the precision test `fabs(dist - knn_dist) <= precision` is modelled on integers with an integer precision. The float precision 0.001 is not modelled.
- Parallel execution: each launch runs its work-items one after another. This is sound only because every work-item writes cells no other work-item reads or writes, and the model proves that.
- Barriers and work-group local memory: a work-item's reads of the shared tiles become direct reads of `A` and `B`, under the same guards the loader uses. So the model does not capture what the barriers order.
- The `begin_A`, `begin_B`, `step_A`, `step_B` and `end_A` values that every work-item of a group writes to local memory: in the model, each work-item computes them itself.
- Launch grids: the grids are rounded up to a multiple of 16 or 256. Each per-work-item contract states that an out-of-range work-item writes nothing, and the launches are modelled over the in-range work-items only.
- Device allocation, host-to-device copies and `free`: the device buffers are fresh arrays, and the inputs are read in place. The device-to-host copy of the first `k` rows is CopyPrefix.
- `malloc` failure in `knn_c` is the parameter `allocOk`. The message printed on failure is not modelled.
- Integer overflow of offsets such as `j * query_nb + i` and `(begin_A + ty) * wB`: all arithmetic is unbounded.
- Oracle.ModifiedInsertionSort requires `1 <= length` and `1 <= k`; it accepts `k > length` and then selects all `length` slots. With `length = 0` the source's `index[0] = 0` writes out of bounds. With `k = 0` it reads `dist[k - 1]`, which is out of bounds.
- KnnSearch.KnnC requires `1 <= k <= ref_nb`. With `k = 0` the sort it calls reads `dist[-1]`. With `k > ref_nb` the copy loop reads past the scratch arrays.
- SortKernel.InsertionSort requires `1 <= k <= height`. With `k = 0` the kernel writes row -1. With `k > height` part 1 reads rows past the matrix.
- GpuSearch.KnnParallel requires `1 <= k <= ref_width`, for the same reasons as SortKernel.InsertionSort.
- Aliasing: the model requires that output buffers are distinct from each other and from the inputs, as every caller in the program arranges.
- `main`'s random initialisation, the timing loops, the repeated runs and the printing are not modelled.
- The DEBUG-only dumps inside `knn_parallel` are not modelled.
- `srad-dpct` is a different program and is not part of this model.
