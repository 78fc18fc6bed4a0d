# Connected-component blob detector

This project models `detect_blobs`, the C blob detector of a hand and face
tracking application, and proves what it computes. The detector takes a
row-strided 8-bit grayscale buffer (`width` pixels per row, `step` bytes per
row, so rows may be padded). It scans the pixels in raster order. From every
unvisited pixel brighter than `threshold` it runs a breadth-first,
8-connected flood fill, using a `visited` mark per pixel and an explicit
queue. Both are sized `width * height`.

For every component the fill counts the pixels and sums their x and y
coordinates. A component is recorded when its pixel count lies in
`[min_area, max_area]` and fewer than `max_blobs` blobs have been recorded.
A recorded blob holds the truncated mean centroid and the area. The function
returns the number of blobs written.

Layout, one module per file:

- `grid.dfy` (`Grid`) holds the image, pixel coordinates and the two index
  computations. Pixel bytes are read at the row-strided offset
  `y * step + x`. Visited marks live at the packed index `y * width + x`.
  It also holds the strict threshold test, the detector's neighbour-offset
  table and 8-adjacency.
- `connectivity.dfy` (`Connectivity`) defines paths through foreground
  pixels, reachability, the 8-connected component of a pixel, and the
  "seed" of a component, which is its raster-first pixel.
- `centroids.dfy` (`Centroids`) defines coordinate sums. They are taken in
  queue order over a sequence and in raster order over a set, and the two
  are proved equal. It also bounds truncated means.
- `blob_spec.dfy` (`BlobSpec`) gives the reference definition of the result.
  `Expected` is one blob per qualifying component, in raster order of the
  component's seed, cut to the first `max_blobs`. It also holds the
  properties stated on that definition.
- `tracker.dfy` (`Tracker`) is the detector itself on arrays. The scan and
  the fill are split into small methods: one neighbour, one dequeued pixel,
  the seed, one fill, one scan position, one row, and the whole scan. Each
  method carries the invariants that tie it to the reference definition. A ghost
  set mirrors the `visited` array.

`Tracker.DetectBlobs` is proved to return exactly `BlobSpec.Expected`.

In the model, pixel bytes are the subset type `Byte` (0..255). Every other
quantity is an unbounded `int`. `Image.Valid` restricts images to those
whose C `int` arithmetic cannot overflow. The product `width * height` fits
in a C `int` for every pair of dimensions, negative ones included. For a
non-empty image, `Grid.FitsInt` also keeps the coordinate sums of the whole
image within `INT_MAX`. The strided offset `(height - 1) * step + (width - 1)`
of the last pixel fits as well. Within those bounds the C arithmetic is
exact. C's `/` truncates toward
zero, which agrees with Dafny's `/` on the non-negative sums and counts
involved.

The header comment says the function "returns the number of blobs
detected". The code returns the number of blobs written. A component that
passes the area filter after `max_blobs` blobs are recorded is filled and
marked, but it is not counted. The model follows the code.

## Model

| member | source | states |
|---|---|---|
| Tracker.DetectBlobs | tracker_c.c:11-89 | Returns exactly the first `max_blobs` qualifying components, one blob each, in raster order of each component's first pixel. The count equals the number of blobs and lies in [0, max(max_blobs, 0)]. Every blob has min_area <= area <= max_area and a centroid inside the image. Width or height <= 0 gives no blobs. |
| Tracker.ScanRow | tracker_c.c:32-84 | After one row of the scan, the blobs are the capped blobs of every seed in the rows before the next one. The visited pixels are still closed and mirrored, and each blob still fits the filter and the image. |
| Tracker.ScanPixel | tracker_c.c:32-82 | Handles one raster position. A visited pixel leaves the marks and the visited set unchanged and adds no blob. An unvisited background pixel ends up visited and adds no blob. An unvisited foreground pixel is the first pixel of a new component: it is filled, and its blob is appended only when the area passes and fewer than `max_blobs` are recorded. Afterwards the result is the capped blobs of all seeds up to and including this position. |
| Tracker.ScanBackground | tracker_c.c:37-39 | Marking an unvisited background pixel, and only it, keeps the scan invariant at the next position. That pixel is not the first pixel of any component. |
| Tracker.FloodFill | tracker_c.c:42-73 | One fill from a seed counts exactly the pixels of the seed's 8-connected foreground component. Its x and y sums equal the component's coordinate sums. It marks the component (and only foreground pixels of that component among the newly visited). The visited foreground stays closed under adjacency. Both truncated means lie inside the image. |
| Tracker.EnqueueSeed | tracker_c.c:43-45 | The seed becomes the queue's only entry (`queue_end == 1`), and the visited set grows by exactly the seed. The fill invariant then holds with nothing dequeued. |
| Tracker.ExpandPixel | tracker_c.c:50-72 | After all eight neighbours of the dequeued pixel are examined, every in-bounds neighbour is visited. The queue only grows at its end, and the fill invariant holds with one more pixel dequeued. |
| Tracker.VisitNeighbour | tracker_c.c:57-72 | The marks, the visited set and the queue after neighbour `d` are those given by `VisitMarks`, `VisitSet` and `VisitQueue`. So an off-image or already visited neighbour changes nothing. A fresh neighbour is marked, and it is appended exactly when brighter than the threshold. The fill invariant is kept, and the neighbour ends up visited whenever it is on the image. |
| Tracker.Fresh | tracker_c.c:60-64 | A neighbour is examined further only when it is on the image and unmarked. Then fewer than width * height cells are marked. |
| Tracker.VisitMarks | tracker_c.c:63-71 | Examining a neighbour never clears a mark. It sets exactly one more mark, the neighbour's own, when the neighbour is fresh, whether or not it is foreground. |
| Tracker.VisitSet | tracker_c.c:63-71 | The visited set only grows and contains every on-image neighbour examined. It still mirrors the marks after the step. |
| Tracker.VisitQueue | tracker_c.c:66-68 | The queue only grows at its end, by at most one entry. It grows exactly when the neighbour is fresh and strictly brighter than the threshold, and the new last entry is that neighbour. |
| Tracker.FillVisit | tracker_c.c:60-71 | Examining a neighbour of a queued pixel keeps the fill invariant. Marks mirror the visited set, and queued pixels are distinct, foreground and reachable from the seed. Every newly visited foreground pixel is queued, and the queue never exceeds the number of marks. |
| Tracker.QueueFits | tracker_c.c:68 | While some pixel is unvisited, the queue holds fewer than width * height entries, so `queue[queue_end++]` stays inside the allocation. |
| Tracker.FillEnd | tracker_c.c:50-73 | When the queue is drained, the set of queued pixels is exactly the seed's component. All of it is visited, and the visited foreground is closed under 8-adjacency. |
| Tracker.FillTotals | tracker_c.c:51-54 | For a drained queue, the count is the component's size (> 0) and the x and y sums are the component's coordinate sums. The truncated means lie within [0, width) and [0, height). |
| Tracker.ScanSeed | tracker_c.c:31-45 | An unvisited foreground pixel reached by the raster scan is the raster-first pixel of its component. So a fill starts exactly once per component, at its first pixel. |
| Tracker.ScanAfterFill | tracker_c.c:42-73 | After the fill from a seed, every pixel before the next scan position is visited. No visited foreground pixel at or after that position starts a component. |
| Tracker.ScanComplete | tracker_c.c:31-40 | Once the scan has passed the last row, every visited mark is set. |
| Grid.Idx | tracker_c.c:62 | The packed index `y * width + x` of an in-bounds pixel lies in [0, width * height), inside the visited array. |
| Grid.Offset | tracker_c.c:65 | The strided offset `y * step + x` of an in-bounds pixel lies inside the buffer when `step >= width` and the buffer holds `(height - 1) * step + width` bytes. It does not exceed `INT_MAX`. |
| Grid.ForegroundRange | tracker_c.c:66 | The threshold test is strict on byte pixels. A threshold of 255 or more leaves no foreground pixel, and a negative threshold makes every on-image pixel foreground. |
| Grid.Neighbour | tracker_c.c:27-59 | Each of the eight table offsets leads to a pixel 8-adjacent to `p`. |
| Grid.IdxInjective | tracker_c.c:33 | Distinct in-bounds pixels have distinct packed indices, so no two pixels share a visited mark. |
| Grid.IdxOnto | tracker_c.c:33 | Every index in [0, width * height) is the packed index of the in-bounds pixel (i mod width, i div width). |
| Grid.NeighbourhoodComplete | tracker_c.c:27-28 | The eight offset pairs reach exactly the 8-adjacent pixels: a pixel is adjacent if and only if some table entry leads to it. |
| Connectivity.Component | tracker_c.c:50-72 | A pixel belongs to the component of `s` if and only if it is on the image and reachable from `s` through 8-adjacent foreground pixels. |
| Connectivity.ComponentWithin | tracker_c.c:50-72 | A set that holds `s` and is closed under foreground adjacency holds all of `s`'s component. |
| Connectivity.ReachSymmetric | tracker_c.c:57-72 | 8-connectivity is symmetric: a path walked backwards is a path. |
| Connectivity.ReachTrans | tracker_c.c:57-72 | 8-connectivity is transitive: paths concatenate. |
| Connectivity.SameComponent | tracker_c.c:42-73 | Two connected pixels have the same component. So a component is filled from whichever of its pixels is met first, with the same result. |
| Connectivity.ComponentsAgree | tracker_c.h:19-21 | Two images with the same width, height and in-bounds pixels have the same components and the same seeds, whatever their row strides. |
| Centroids.SeqSumIsSetSum | tracker_c.c:51-53 | Summing a coordinate over distinct in-bounds pixels in any order, the queue's included, gives the set's raster-order sum. The number of pixels is the size of the set. |
| Centroids.SeqMeanBounds | tracker_c.c:77-78 | The truncated mean coordinate of a non-empty sequence of in-bounds pixels lies in [0, width) for x and [0, height) for y. |
| Centroids.SetMeanBounds | tracker_c.c:77-78 | The same bound holds for the truncated mean over a non-empty set of in-bounds pixels. |
| BlobSpec.BlobOf | tracker_c.c:77-79 | The blob of a non-empty component on the image has the component's size as its area, and its truncated mean centroid is a pixel of the image. |
| BlobSpec.Qualifying | tracker_c.c:31-82 | Every component's blob in the reference list passes the area filter and has its centroid inside the image. |
| BlobSpec.Expected | tracker_c.c:75-81 | The result is a prefix of the qualifying blobs. It holds at most max(max_blobs, 0) of them, and all of them when fewer than that are recorded. Each passes the area filter and lies in the image. |
| BlobSpec.Cap | tracker_c.c:76 | Keeping at most `m` blobs yields the first min(m, count) of them, and none when `m <= 0`. |
| BlobSpec.CapAppend | tracker_c.c:75-81 | Appending a blob only while fewer than `m` are recorded keeps exactly the first `m` of all blobs offered. Later components are dropped, not recorded over earlier ones. |
| BlobSpec.ExpectedInRange | tracker_c.c:75 | Every reported blob has min_area <= area <= max_area. |
| BlobSpec.InvertedBoundsNoBlobs | tracker_c.c:75 | When max_area < min_area, nothing is reported. |
| BlobSpec.AllBackgroundNoBlobs | tracker_c.c:36-40 | An image with no pixel strictly brighter than the threshold reports nothing. Pixels equal to the threshold are background. |
| BlobSpec.SingleComponent | tracker_c.c:42-81 | When the foreground is one component, the result is that component's blob if the area passes and `max_blobs > 0`, and nothing otherwise. |
| BlobSpec.SinglePixelBlob | tracker_c.c:77-79 | A lone foreground pixel (x, y) with min_area <= 1 <= max_area and `max_blobs >= 1` is reported as Blob(x, y, 1). |
| BlobSpec.PaddingIrrelevant | tracker_c.h:19-21 | The result depends only on the in-bounds pixels. Padding bytes after each row, and the stride itself, make no difference. |

## Left out

- Allocation failure (tracker_c.c:17, 21-24). `calloc` and `malloc` are taken to succeed. A failure would make the C function return 0, which no Dafny allocation can exhibit.
- Tracker.DetectBlobs: C `int` overflow of `width * height`, `sum_x`, `sum_y` and the offset `y * step + x` is not modelled. `Image.Valid` keeps all four within the `int` range, for negative dimensions as well. Outside that range the C code has undefined behaviour.
- Grid.FitsInt: the bound is stricter than C needs. It bounds the coordinate sums over the whole image, while C overflows only when one component's sum passes `INT_MAX`. So it excludes whole frame sizes that C handles whenever the components are small. A 3840×2160 frame, for one, is outside the model.
- Tracker.DetectBlobs: the caller-allocated `blobs` array is modelled as a returned sequence plus its length. "Only `blobs[0..n)` is written" becomes "the returned sequence has length `n`".
- Tracker.ScanPixel: the contract does not say that the background path marks only `p`. That step is stated by `Tracker.ScanBackground`, which the method's proof uses. Putting the same equation on the method made the proof of `Tracker.ScanRow` exceed the verifier's resource bound.
- Tracker.ScanComplete: the `visited` array is local to the C function. So "every pixel is visited after the scan" is proved inside `DetectBlobs` and is not part of its contract.
- main.cpp: the producer/worker mailbox between threads (mutex, condition variable and flags) is concurrency. The thresholding and 3×3 morphological opening are OpenCV library calls whose code is not part of this model. Camera capture, face detection, trackbars, drawing and the gesture timing heuristics are user-interface and device I/O.
- open_api/open_api.cpp and open_api/open_api.h: an HTTP request through libcurl and JSON parsing. This is network I/O through external libraries.
