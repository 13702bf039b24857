# GAMES101 coursework core, modelled in Dafny

This project models the discrete core of a graphics coursework repository
and proves properties of that model. Coordinates, colours and costs are
Dafny `real`s. Primitive geometry is passed in as functions: bounds, box
union, centroid, widest axis, surface area, the ray-box test and the
per-object ray test.

- **BVH** (`hw6/BVH.cpp`, modules `BvhTree`, `SahScan`, `BvhBuild`).
  - The median-split builder `recursiveBuild`.
  - The binned surface-area-heuristic (SAH) builder `recursiveBuildSVH`. Its
    scan over up to 100 bin boundaries is an imperative loop.
  - The `BVHAccel` object: leaf-size cap, empty guard and root.
  - The recursive nearest-hit traversal `getIntersection`.
- **Scene** (`hw7/Scene.cpp`, module `Scene`).
  - `buildBVH` and `intersect`.
  - `sampleLight`, the area-weighted light choice. The random number is a
    parameter.
  - `trace`, the brute-force closest-hit loop.
- **Renderer** (`hw7/Renderer.cpp`, modules `Renderer`, `Ppm`).
  - The 5 x 5 tiling and the per-tile accumulation loop `render_block`,
    with its 16 samples per pixel.
  - The progress counter and its reports.
  - The binary PPM (Netpbm P6) file: header, then 3 bytes per pixel.
  - The 25 threads run as a sequential loop over the tiles, in the order
    they are started. The radiance of each sample is a parameter.
- **Rasterizer** (`hw2/rasterizer.cpp`, module `Rasterizer`).
  - A class with a colour buffer and a depth buffer.
  - Row-flipped cell indexing, buffer clearing by bit flags, and the
    edge-sign inside test.
  - The bounding-box loop and the strict depth test of `rasterize_triangle`.
- **Bezier tool** (`hw4/main.cpp`, module `Bezier`).
  - De Casteljau's recursion.
  - The bounded control-point list filled by mouse clicks.
  - The max-blend plotting of curve points into a window of BGR bytes.
- **Texture lookup** (`hw3/Texture.hpp`, module `Textures`).
  - The `getColor` texel mapping.
  - The clamps, rounding, wrap-around taps and blend of
    `getColorBilinear`.

`Common` holds the shared vector type, C++ float-to-int truncation, the
float limits and the intersection record.

Two behaviours of the code worth knowing:
- When the SAH (surface-area heuristic) scan accepts no cut,
  `recursiveBuildSVH` does not fall back to a median split and recurses on
  the same objects. See Findings.
- Progress is reported as 1.0 twice: for the last pixel and again by the
  final `UpdateProgress(1.f)`. `Renderer.ReportsRiseToOne` states it.

## Model

| member | source | states |
|---|---|---|
| Common.Trunc | hw4/main.cpp:59-60 | a float-to-int conversion truncates toward zero: the floor for non-negative values, the ceiling for negative ones |
| BvhTree.GetIntersection | hw6/BVH.cpp:265-281 | the traversal: the default no-hit when the box test fails, the object's own result at a leaf, the nearer child result at an interior node; a hit it reports is the hit of one of the tree's objects, and `TraversalReturnsClosestHit` and `TraversalMatchesLinearScan` prove it is the closest |
| BvhTree.TraversalReturnsClosestHit | hw6/BVH.cpp:265-281 | the traversal result happened iff some object in a leaf whose boxes pass is hit; it is then that object's own result, and no such hit is nearer; otherwise it is the default no-hit or a lone leaf's own result |
| BvhTree.ConservativeReachesEveryHit | hw6/BVH.cpp:268-269 | when every subtree around a hit passes its box test, every hit object is reached by the traversal |
| BvhTree.TraversalMatchesLinearScan | hw6/BVH.cpp:265-281 | with sound bounds the traversal agrees with a brute-force scan of all objects: happened iff some object is hit, equals one object's hit, and is no farther than any hit |
| BvhTree.WellBoundedIsConservative | hw6/BVH.cpp:36-50 | a tree whose leaves carry their object's bounds and whose interior nodes carry the union of their children's bounds passes the box test on every path to a hit, given box tests that are sound for unions |
| SahScan.CalS | hw6/BVH.cpp:96-98 | `calS`, the surface area of a box from its diagonal; used by `CandidateCost` |
| SahScan.CandidateCost | hw6/BVH.cpp:208-226 | `cur_c`: the SAH cost of leaving `i` objects left of boundary `index`, non-finite when the centroid box has zero area; `ZeroAreaAcceptsNothing` and `ChoiceIsProper` state what the scan makes of it |
| SahScan.FirstAbove | hw6/BVH.cpp:182-207 | the scan cursor stops at the first key above `middle`; all keys before it are not above it |
| SahScan.BoundaryCapsIndex | hw6/BVH.cpp:181-237 | a boundary that still has a key above it has number below 100 (B), so at most 100 boundaries are scored |
| SahScan.Scan | hw6/BVH.cpp:155-237 | the scan loop scores exactly the boundaries that have a key above them, at most 100; `min_leftn` is 0 when no cost beats `FLT_MAX`, otherwise the left count of the least cost, the earliest one among equal costs (strict `<`) |
| SahScan.PositiveRangeScoresNonEmptyCuts | hw6/BVH.cpp:181-207 | with a positive centroid range the first boundary is scored and every scored cut leaves both sides non-empty |
| SahScan.CoincidentKeysScoreNothing | hw6/BVH.cpp:181-207 | when all keys equal the lower bound, no boundary is scored |
| SahScan.ZeroAreaAcceptsNothing | hw6/BVH.cpp:226-230 | a zero centroid-box surface area makes every cost non-finite, so `min_leftn` stays 0 |
| SahScan.ChoiceIsProper | hw6/BVH.cpp:155-241 | over sorted keys in a tight box, the choice is 0 or a cut leaving both sides non-empty, and it is 0 exactly when no scored cost is below `FLT_MAX` |
| BvhBuild.InsertByKey | hw6/BVH.cpp:57-76 | one insertion step of the sort keeps the sequence ordered on the axis and adds exactly the new object |
| BvhBuild.SortByCentroid | hw6/BVH.cpp:57-76 | the `std::sort` on the split axis yields a permutation of the objects ordered by centroid coordinate |
| BvhBuild.CornersAreTight | hw6/BVH.cpp:52-56 | on every axis the centroid-box corners bound every centroid and are attained by some centroid |
| BvhBuild.CentroidBounds | hw6/BVH.cpp:52-56 | the centroid-bounds loop computes the componentwise least and greatest centroids |
| BvhBuild.TightKeys | hw6/BVH.cpp:125-149 | the sorted keys on the split axis are ordered, lie in the centroid box and touch both of its ends |
| BvhBuild.ChooseSvhCut | hw6/BVH.cpp:125-237 | the SAH choice returns a sorted permutation of the objects, the number of scored boundaries and the scan's `min_leftn` |
| BvhBuild.SvhCutIsProper | hw6/BVH.cpp:155-241 | the SAH cut is 0 or leaves both halves non-empty, and it is 0 exactly when no scored cost beats `FLT_MAX` |
| BvhBuild.JoinHalves | hw6/BVH.cpp:78-90 | building the two halves of an ordered cut keeps every object exactly once, puts `mid` objects on the left, and no left centroid lies above a right one |
| BvhBuild.RecursiveBuildSvh | hw6/BVH.cpp:100-254 | corrected SAH builder: the leaves hold exactly the input multiset with union bounds; one object gives a leaf with its bounds; two give two leaves in input order; three or more split at the SAH cut (the median when the scan accepts nothing), ordered on the split axis |
| BvhBuild.SvhSplit | hw6/BVH.cpp:239-249 | the corrected `else` branch splits at the SAH cut or the median, keeps the multiset and the union bounds |
| BvhBuild.RecursiveBuild | hw6/BVH.cpp:28-94 | median builder: the leaves hold exactly the input multiset with union bounds; one object gives a leaf; two give two leaves in input order; three or more split at `n / 2` |
| BvhBuild.MedianSplit | hw6/BVH.cpp:51-91 | the objects, sorted on the axis of widest centroid spread, are cut at `n / 2`; no left centroid lies above a right one |
| BvhBuild.CoincidentCentroidsChooseNothing | hw6/BVH.cpp:125-237 | when all centroids coincide the SAH scan keeps `min_leftn == 0` |
| BvhBuild.FlatCentroidsChooseNothing | hw6/BVH.cpp:125-237 | when the centroid box has zero surface area (collinear or coincident centroids) every cost is non-finite and the SAH scan keeps `min_leftn == 0` |
| BvhBuild.RecursiveBuildSvhAsWritten | hw6/BVH.cpp:100-254 | the builder as written never finishes for no objects, nor for three or more whose centroids coincide or whose centroid box has zero surface area (collinear centroids); when it does finish the tree holds the input |
| BvhBuild.SvhSplitAsWritten | hw6/BVH.cpp:239-249 | the `else` branch as written, cutting at `min_leftn` even when it is 0, never finishes in those cases |
| BvhBuild.BvhAccel.constructor | hw6/BVH.cpp:5-26 | `maxPrimsInNode` is capped at 255; there is no root exactly when there are no primitives; otherwise the tree built by the corrected SAH builder holds the primitives with sound bounds |
| BvhBuild.BvhAccel.Intersect | hw6/BVH.cpp:256-263 | without a root the answer is the default no-hit, otherwise the traversal from the root |
| BvhBuild.IntersectIsClosestHit | hw6/BVH.cpp:256-281 | a built accelerator returns the closest hit over all its primitives, and happened iff some primitive is hit |
| Scene.ChosenIsUnique | hw7/Scene.cpp:29-38 | at most one object is where the second loop stops for a threshold |
| Scene.EmitAreaMonotone | hw7/Scene.cpp:21-26 | with non-negative areas the running emitting area never decreases |
| Scene.ChosenIffInSlice | hw7/Scene.cpp:29-38 | for a positive threshold, an object is chosen iff it emits and the threshold falls in its own slice of the running sum; objects that do not emit are never chosen |
| Scene.SomeLightIsChosen | hw7/Scene.cpp:21-38 | with some emitter, non-negative areas and a random factor in [0, 1], some light is always chosen |
| Scene.Trace | hw7/Scene.cpp:41-60 | returns true iff some object reports a hit nearer than the incoming `tNear`; `tNear` is then the least such distance, and `index` and `hitObject` come from the first object that attains it; otherwise `tNear` and `index` are unchanged |
| Scene.Scene.BuildBvh | hw7/Scene.cpp:9-12 | a fresh accelerator over the scene's objects with leaf size 1 and the naive split method, built by the corrected SAH builder and holding exactly those objects |
| Scene.Scene.SampleLight | hw7/Scene.cpp:19-39 | the chosen light's `Sample`, applied to the caller's `pos`, is returned with its object set to that light; when no light is chosen, `pos` and `pdf` are untouched |
| Scene.Scene.Intersect | hw7/Scene.cpp:14-17 | the scene query, the BVH's `Intersect`; `SceneIntersectIsClosestHit` proves it is the closest hit over all objects |
| Scene.SceneIntersectIsClosestHit | hw7/Scene.cpp:14-17 | the scene query returns the closest hit over all scene objects |
| Renderer.TileStep | hw7/Renderer.cpp:59 | the tile step `extent / 5 + 1` is at least 1 |
| Renderer.TileStart | hw7/Renderer.cpp:62-64 | the tile start `sx = i * x_step` (and `sy`), stepped one tile at a time; `TileStartIsProduct` proves the product form |
| Renderer.TileEnd | hw7/Renderer.cpp:62-64 | the tile end `ex = std::min(sx + x_step, width)` (and `ey`); `TilesPartition` proves the tiles partition the extent |
| Renderer.Clip | hw7/Renderer.cpp:62 | `std::min` with the extent is at most both arguments and equals one of them |
| Renderer.TileStartIsProduct | hw7/Renderer.cpp:62 | the start of tile `i` is `i * step` |
| Renderer.TilesPartition | hw7/Renderer.cpp:59-64 | a coordinate lies in tile `i` iff it is inside the extent and its tile number is `i`, and every coordinate inside the extent has a tile number below 5; so the tiles are disjoint and cover the extent |
| Renderer.TileSpan | hw7/Renderer.cpp:62-64 | the size of a tile is the difference of consecutive clipped starts |
| Renderer.ThreadSlots | hw7/Renderer.cpp:55-65 | the thread slot `i * X_BLOCK + j` of a tile lies in [0, 25) and is distinct for distinct tiles |
| Renderer.Cell | hw7/Renderer.cpp:36-46 | the framebuffer cell `j * width + i` of a pixel inside the image is below `width * height` |
| Renderer.CellLayout | hw7/Renderer.cpp:36-46 | distinct pixels have distinct cells |
| Renderer.CellCovers | hw7/Renderer.cpp:21-46 | every framebuffer cell is the cell of a pixel |
| Renderer.Pixel | hw7/Renderer.cpp:42-45 | a rendered pixel: `spp` shares `castRay / spp` added to the zero vector; `PixelIsMean` proves it is the mean of its samples |
| Renderer.AccumulateAddsShares | hw7/Renderer.cpp:43-45 | `k` passes of `+= castRay / spp` add the sum of the samples divided by `spp` |
| Renderer.PixelIsMean | hw7/Renderer.cpp:43-45 | a rendered pixel is the mean of its 16 samples and equals the common value when all samples agree |
| Renderer.RenderBlock | hw7/Renderer.cpp:34-53 | every pixel of the tile gets exactly its 16 contributions at its own cell, every other cell is unchanged; the counter rises by the tile's pixel count and each increment is reported |
| Renderer.RenderColumn | hw7/Renderer.cpp:61-67 | one column of tiles renders exactly the pixels of those tiles and advances the counter and reports accordingly |
| Renderer.Render | hw7/Renderer.cpp:19-100 | every pixel ends up as its rendered value exactly once; the counter ends at `width * height`; the reports are the successive counter values scaled to [0, 1] followed by 1.0; the output is the PPM of the framebuffer |
| Renderer.PixelsBeforeClosed | hw7/Renderer.cpp:61-67 | the counter before a tile equals the pixels of all whole tile columns to its left plus the tiles above it in its column |
| Renderer.PixelsBeforeAll | hw7/Renderer.cpp:47-50 | after all tiles the counter is `width * height` |
| Renderer.TileOfBlock | hw7/Renderer.cpp:59-64 | a pixel lies in tile `(i, j)` iff its tile numbers are `i` and `j` |
| Renderer.ProgressRun | hw7/Renderer.cpp:47-50 | the values `UpdateProgress(1.0 * process / width / height)` reports as the counter steps from `start + 1` to `start + n`; one report per step; `ReportsRiseToOne` proves they rise to 1.0 |
| Renderer.ReportsRiseToOne | hw7/Renderer.cpp:47-50 | the reported progress never decreases and ends at 1.0; for a non-empty image the last per-pixel report is already 1.0 |
| Ppm.Digits | hw7/Renderer.cpp:92 | `%d` of a dimension writes at least one byte |
| Ppm.DigitsAreDigits | hw7/Renderer.cpp:92 | `%d` writes only digit characters |
| Ppm.DigitsValue | hw7/Renderer.cpp:92 | the digits written read back as the number |
| Ppm.ParseNumberRoundTrip | hw7/Renderer.cpp:92 | a number followed by a non-digit parses back to its value and its digit count |
| Ppm.HeaderRoundTrip | hw7/Renderer.cpp:92 | the header `P6\n<w> <h>\n255\n` parses back to its width and height, with the pixel bytes starting right after it |
| Ppm.ColorBytes | hw7/Renderer.cpp:95-98 | the three bytes `color[0..2]` written per pixel, one gamma-corrected clamped channel each; `FullChannelIsFullByte` and `PixelBytesLayout` state their value and place |
| Ppm.Clamp01 | hw7/Renderer.cpp:95-97 | `clamp(0, 1, v)` lies in [0, 1] and leaves values inside it alone |
| Ppm.FullChannelIsFullByte | hw7/Renderer.cpp:95-97 | a channel byte is 255 exactly when the gamma-corrected clamped channel is 1 |
| Ppm.PixelBytesLayout | hw7/Renderer.cpp:93-99 | the body has exactly 3 bytes per pixel, and pixel `k`'s bytes are at `3k .. 3k+2`, in framebuffer order |
| Ppm.WriteImage | hw7/Renderer.cpp:91-100 | the byte-writing loop produces the header followed by the pixel bytes of the whole framebuffer |
| Ppm.ImageRoundTrip | hw7/Renderer.cpp:91-100 | the written file reads back as its dimensions, is exactly `3 * w * h` bytes longer than its header, and holds pixel `k` at offset `header + 3k` |
| Rasterizer.Index | hw2/rasterizer.cpp:247-250 | `get_index` of an on-screen pixel is a cell of the buffers |
| Rasterizer.IndexInjective | hw2/rasterizer.cpp:247-250 | distinct on-screen pixels have distinct cells |
| Rasterizer.IndexCovers | hw2/rasterizer.cpp:247-250 | every cell is `get_index` of some on-screen pixel (the row flip inverts) |
| Rasterizer.EdgeValue | hw2/rasterizer.cpp:43-57 | the cross product `vecP[0] * side[1] - vecP[1] * side[0]` of edge `i`; `EdgeValues` proves it is the signed area times the opposite affine coordinate |
| Rasterizer.Inside | hw2/rasterizer.cpp:43-57 | `insideTriangle`: the three edge values agree on being `< 0`; `InsideTriangle` computes it by the `res` loop and `InsideByCoordinates` characterises it by winding |
| Rasterizer.InsideTriangle | hw2/rasterizer.cpp:43-57 | the `res[i]` loop returns true iff the three edge cross products agree on being `< 0` |
| Rasterizer.EdgeValues | hw2/rasterizer.cpp:50-55 | each edge cross product is the triangle's signed area scaled by the opposite affine coordinate |
| Rasterizer.InsideByCoordinates | hw2/rasterizer.cpp:43-57 | the test accepts exactly the points strictly inside a clockwise triangle, the points inside or on the edges of a counter-clockwise one, and every point on the line through the vertices of a degenerate one; a point strictly inside is accepted under either winding |
| Rasterizer.BoundingBox | hw2/rasterizer.cpp:127-141 | the vertex loop computes the truncated least and greatest coordinates, with `min` seeded at `INT_MAX` and `max` at 0, so `max_x` and `max_y` are never negative |
| Rasterizer.BoxHoldsTriangle | hw2/rasterizer.cpp:127-149 | every integer pixel of the closed triangle lies in the scanned box |
| Rasterizer.InsidePixelCovered | hw2/rasterizer.cpp:148-150 | every integer pixel strictly inside a non-degenerate triangle is scanned and passes the inside test |
| Rasterizer.DepthTestsKeepNearest | hw2/rasterizer.cpp:159-163 | after a run of depth tests a cell holds the least depth seen; it changes only when a fragment is strictly nearer, and its colour then belongs to the first fragment that reached that depth |
| Rasterizer.Rasterizer.constructor | hw2/rasterizer.cpp:238-245 | both buffers get `w * h` cells, and `resize` zero-initialises the depths |
| Rasterizer.Rasterizer.SetPixel | hw2/rasterizer.cpp:252-257 | `set_pixel` writes exactly the cell `get_index` names |
| Rasterizer.Rasterizer.Clear | hw2/rasterizer.cpp:226-236 | with the Color flag every colour becomes black, with the Depth flag every depth becomes +infinity; each flag acts alone and an absent flag leaves its buffer unchanged |
| Rasterizer.Rasterizer.RasterizeTriangle | hw2/rasterizer.cpp:119-166 | every covered pixel holds the outcome of its strict depth test (depth and colour replaced only when the fragment is nearer), and every other cell is unchanged |
| Rasterizer.Fill | hw2/rasterizer.cpp:226-236 | `std::fill` sets every cell of a buffer to the value |
| Bezier.NextLevel | hw4/main.cpp:43-46 | `next_level_points`: the lerp of each control point with its successor, one point fewer; `NextLevelReversed` proves it commutes with reversal |
| Bezier.RecursiveBezier | hw4/main.cpp:36-50 | `recursive_bezier`: de Casteljau levels down to two points, then one lerp; `BezierEndpoints`, `BezierReversed` and `BezierInBox` state its properties |
| Bezier.BezierEndpoints | hw4/main.cpp:36-50 | at t = 0 the curve is at the first control point, at t = 1 at the last |
| Bezier.BezierReversed | hw4/main.cpp:36-50 | the curve of the reversed control points at `1 - t` is the curve at `t` |
| Bezier.NextLevelReversed | hw4/main.cpp:43-46 | one level of De Casteljau commutes with reversing the points and `t` |
| Bezier.BezierInBox | hw4/main.cpp:36-50 | for t in [0, 1] the curve stays in any box that holds all control points |
| Bezier.Clicked | hw4/main.cpp:10-18 | a left click while `size < count` appends its position, anything else leaves the list; a list within `count` stays within it |
| Bezier.ControlPoints.constructor | hw4/main.cpp:6-7 | the control-point list starts empty with its bound `count` |
| Bezier.ControlPoints.MouseHandler | hw4/main.cpp:10-18 | the list becomes the clicked list and never grows past `count` |
| Bezier.Raise | hw4/main.cpp:103-104 | one max-update never lowers a channel and sets it to the truncated weight exactly when the old value is below it |
| Bezier.WeightRange | hw4/main.cpp:62-63 | each of the four bilinear weights lies in [0, 255] |
| Bezier.CornerWeights | hw4/main.cpp:103-111 | the four literal weight expressions are the bilinear weights of the point, each in [0, 255] |
| Bezier.RaiseAt | hw4/main.cpp:103-104 | one pixel's red channel is max-updated and no other pixel changes |
| Bezier.PlotPoint | hw4/main.cpp:58-111 | the four neighbours of a curve point are max-updated: red never decreases, channels 0 and 1 are untouched, and the point's own pixel is at least as red as its weight |
| Bezier.PlottedRaisesRed | hw4/main.cpp:103-111 | plotting only raises red and leaves the other channels alone |
| Bezier.PlottedAllRaisesRed | hw4/main.cpp:103-111 | plotting a sequence of points keeps channels 0 and 1, never lowers red, leaves a cell around none of the points unchanged, and leaves each point's own cell at least as red as its weight |
| Bezier.Plot | hw4/main.cpp:52-113 | each cell of the window ends as the plots of all curve points, in parameter order, leave it; hence channels 0 and 1 stay, red never falls, and every curve point's own pixel is at least as red as its weight |
| Textures.GetColor | hw3/Texture.hpp:25-32 | `getColor`: the texel at row `TexelRow` and column `TexelColumn`; `TexelColumn`, `TexelRow` and `TexelPastTheEdge` state where it reads |
| Textures.TexelColumn | hw3/Texture.hpp:27-30 | for u in [0, 1) the column `u * width` is inside the image |
| Textures.TexelRow | hw3/Texture.hpp:28-30 | for v in (0, 1] the row `(1 - v) * height` is inside the image |
| Textures.ColumnMono | hw3/Texture.hpp:27 | the column never decreases as u grows |
| Textures.LeftColumn | hw3/Texture.hpp:27 | u = 0 reads column 0 |
| Textures.RowFlipped | hw3/Texture.hpp:28 | the row never increases as v grows: v is flipped |
| Textures.RowIsFlippedColumn | hw3/Texture.hpp:27-28 | the row for v is the column mapping applied to `1 - v` |
| Textures.TopRow | hw3/Texture.hpp:28 | v = 1 reads row 0 |
| Textures.TexelPastTheEdge | hw3/Texture.hpp:25-32 | u = 1 reads column `width` and v = 0 reads row `height`, one past the image |
| Textures.ClampedColumn | hw3/Texture.hpp:27-30 | corrected column: inside the image for every u in [0, 1], and equal to the original column wherever that was inside |
| Textures.ClampedRow | hw3/Texture.hpp:28-30 | corrected row: inside the image for every v in [0, 1], and equal to the original row wherever that was inside |
| Textures.GetColorClamped | hw3/Texture.hpp:25-32 | `getColor` with the corrected column and row; `ClampedColumn` and `ClampedRow` prove it reads inside the image for u and v in [0, 1] |
| Textures.ClampAsWritten | hw3/Texture.hpp:36-39 | the clamps as written: u ends in [0, 1] and v at most 1, but a negative v stays negative and zeroes u |
| Textures.Clamp | hw3/Texture.hpp:36-39 | corrected clamps: both parameters end in [0, 1], values inside are kept, values outside go to the nearer end |
| Textures.Round | hw3/Texture.hpp:43-44 | `round` is within 0.5 of its argument and non-negative for non-negative arguments |
| Textures.Rounded | hw3/Texture.hpp:41-44 | `round(s * n)` for s in [0, 1] lies in [0, n] |
| Textures.CRem | hw3/Texture.hpp:51-53 | C++ `%` is within (-n, n) and in [0, n) for non-negative operands |
| Textures.WrapPrev | hw3/Texture.hpp:51-53 | for i in [0, n], `(i - 1 + n) % n` is in [0, n): `i - 1`, wrapping 0 to `n - 1` |
| Textures.TapsAsWritten | hw3/Texture.hpp:41-54 | for u, v in [0, 1] the top row and left column are in range and precede the bottom row and right column cyclically, which are at most `height` and `width` |
| Textures.TapsPastTheEdge | hw3/Texture.hpp:41-54 | u = 1 puts the right taps at column `width`, v = 0 puts the bottom taps at row `height` |
| Textures.TapsWrapped | hw3/Texture.hpp:51-54 | corrected taps: all four are inside the image with the cyclic adjacency, and equal the original taps wherever those were inside |
| Textures.Offset | hw3/Texture.hpp:61-62 | `dU = 0.5 + (u_img - round(u_img))` and `dV` lie in [0, 1] |
| Textures.MixBetween | hw3/Texture.hpp:67-68 | a blend with weight in [0, 1] lies between its two end values |
| Textures.BlendBetween | hw3/Texture.hpp:67-69 | the bilinear blend with weights in [0, 1] lies between the least and greatest of the four corners |
| Textures.BlendTapsBetween | hw3/Texture.hpp:51-69 | every blended channel lies between the least and greatest of that channel at the four taps |
| Textures.BlendTaps | hw3/Texture.hpp:51-69 | the bilinear blend of the four texels at the taps, channel by channel; `BlendTapsBetween` proves each channel lies between its values at the taps |
| Textures.BilinearAsWritten | hw3/Texture.hpp:34-72 | `getColorBilinear` as written: the clamps of `ClampAsWritten`, then `LookupAsWritten`; `ClampAsWritten` and `TapsPastTheEdge` show where it reads outside the image |
| Textures.LookupAsWritten | hw3/Texture.hpp:41-72 | the lookup after the clamps as written: the taps of `TapsAsWritten` blended by `BlendTaps`; `TapsPastTheEdge` shows the taps past the edge |
| Textures.Lookup | hw3/Texture.hpp:41-72 | for clamped parameters, the corrected taps are inside the image and every channel of the result lies between its values at those taps |
| Textures.Bilinear | hw3/Texture.hpp:34-72 | the corrected `getColorBilinear` reads only texels inside the image, and every channel lies between its values at the four taps |

## Left out

- `Scene::castRay` path tracing (hw7/Scene.cpp:63-120) is floating-point Monte Carlo estimation; the radiance per sample is a parameter of the renderer. Its clamping lambda `format` is never called, so radiance is not claimed non-negative.
- Threads, `std::mutex` and `join`: the tiles run as a sequential loop in the order they are started; interleavings are not modelled.
- File I/O, `printf`, timing and `std::cout`: the PPM file is the sequence of bytes written; the build time report is left out.
- OpenCV windows, the mouse-callback wiring, `imshow`/`imwrite`/`waitKey`, `main` and `naive_bezier` in hw4/main.cpp.
- The MVP transform, homogeneous divide, viewport mapping and `draw` in hw2/rasterizer.cpp; the rasterizer takes screen-space vertices.
- The barycentric formula and perspective depth interpolation of `rasterize_triangle`: the depth of a pixel is a parameter `depthAt`. Line 153 multiplies by `w / w` where `z / w` is meant, which the parameter hides.
- `load_positions`, `load_indices`, `load_colors`, `set_model`, `set_view` and `set_projection`: buffer bookkeeping and setters.
- The commented-out multisampling code and its `z_buffer` and `color_buffer` (hw2/rasterizer.cpp:243-244 allocate them; nothing modelled reads them).
- `tan`, `pow(·, 0.6)` and the primary-ray direction: the gamma curve is a parameter mapping [0, 1] into [0, 1].
- Floating-point rounding: all arithmetic is exact real arithmetic; `float` casts, `FLT_MAX` as a cost and the SAH `1.0f` factors are reals.
- Primitive geometry (`Bounds3::IntersectP`, `Union`, `Centroid`, `maxExtent`, `SurfaceArea`, `Object::getIntersection`, `Sample`, `getArea`, `hasEmit`, the `Intersection` default): functions passed in. A no-hit result is required to be farther than every hit.
- The `switch (dim)` `default` branches in hw6/BVH.cpp: the axis is a number below 3, so they cannot be taken.
- Integer overflow of `int` and `uint32_t` in the renderer, rasterizer and texture indices: integers are unbounded. Only the `size_t` conversion of `count` in `mouse_handler` is modelled.
- `cv::Vec3b` arithmetic in `getColorBilinear`: the blend is computed on reals, without per-step byte rounding and saturation.
- The unused `u_min`, `u_max`, `v_min` and `v_max` of `getColorBilinear`.
- The `t += 0.001` loop of `bezier`: the parameter values are passed in as a sequence `ts`.
- Bezier.Plot: requires all control points inside the window short of its last row and column, which is a sufficient condition for every write to lie in the window, not the exact one.
- Bezier.RecursiveBezier: requires at least two control points; with fewer the source indexes past the end.
- Rasterizer.Rasterizer.RasterizeTriangle: requires every covered pixel to be on screen, since `get_index` is not range-checked.
- Rasterizer.Rasterizer.constructor: the colours `resize` gives are not stated; Eigen leaves them uninitialised.
- BvhBuild.BvhAccel.constructor: builds the root with the corrected `RecursiveBuildSvh`, so it promises a finished tree for every input, where hw6/BVH.cpp:15 calls the builder as written, which does not return for three or more objects with coincident or collinear centroids (see Findings).
- Scene.Scene.BuildBvh: inherits the corrected build of `BvhBuild.BvhAccel.constructor`; the source's `buildBVH` does not return for the same inputs.
- BvhBuild.RecursiveBuildSvhAsWritten: non-termination is modelled with a recursion-depth `fuel`; running out is `None`.
- `BVHAccel` stores `maxPrimsInNode` and `splitMethod` but never consults them; the model stores them too.

## Findings

| source | as written | input that shows it | evidently intended | confidence | as-written member | corrected member |
|---|---|---|---|---|---|---|
| hw6/BVH.cpp:239-247 | `middling = beginning + min_leftn` also when the scan accepted no candidate and `min_leftn` is still 0; the left half is empty and the right half is the whole input, so `recursiveBuildSVH` recurses on the same objects (and on an empty vector) forever | three objects with the same centroid, or with collinear centroids | fall back to the median cut `n / 2` when no candidate is accepted | not executed | BvhBuild.RecursiveBuildSvhAsWritten | BvhBuild.RecursiveBuildSvh |
| hw3/Texture.hpp:38 | `if (v < 0) u = 0;` zeroes `u` and leaves a negative `v`, so `v_img` exceeds `height` | u = 0.5, v = -0.5 | `if (v < 0) v = 0;` | not executed | Textures.ClampAsWritten | Textures.Clamp |
| hw3/Texture.hpp:43-54 | `int_u = round(u * width)` and `int_v = round((1 - v) * height)` index the right and bottom taps without wrapping | u = 1.0 reads column `width`; v = 0.0 reads row `height` | wrap them modulo `width` and `height` like the left and top taps | not executed | Textures.TapsPastTheEdge | Textures.TapsWrapped |
| hw3/Texture.hpp:27-30 | `getColor` reads column `u * width` and row `(1 - v) * height` with no bound | u = 1.0 reads column `width`; v = 0.0 reads row `height` | keep the edge inside the image, on the last column and row | not executed | Textures.TexelPastTheEdge | Textures.ClampedColumn |
