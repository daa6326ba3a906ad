# tinyrenderer core, modelled in Dafny

tinyrenderer is a small multi-threaded CPU rasterizer. It loads a Wavefront
OBJ mesh into a `Model`. For each frame it transforms the vertices in
parallel tasks, then draws the mesh into a 32-bit `Image`. This project
models the sequential core under the window and thread plumbing. Each part
below is a module in its own file:

- `Colors` (color.dfy): the `Color` constructors and the ARGB packing of `color()`.
- `Images` (image.dfy): the `Image` framebuffer. It has a bounds-checked `set`, a `resize` that only grows the buffer, `clear` and `size`. Its invariant is `|buffer| >= width * height`.
- `Gl` (gl.dfy): Bresenham's `gl::line`.
  - The method `Line` does the two swaps, and `LineLoop` is the loop, with its invariants. Together they return the pixels passed to `set`, in order.
  - `LinePixels` is an independent closed form: after `i` steps the minor axis has moved `i * |dy| / dx` steps, rounded to the nearest integer with halves rounded down.
  - `DrawLine` is the effect of those writes on an image.
- `Geometry` (geometry.dfy): `geom::barycentric` and `geom::peerDot` over exact reals.
- `Meshes` (mesh.dfy): the OBJ loader.
  - Lines are dispatched on their prefix.
  - Face corners are converted from 1-based to 0-based and stored flat, three per face.
  - A face that is not a triangle is rejected.
  - The model has accessors, and `transformed` is initialised with w = 1.
- `Render` (render.dfy): the two per-frame tasks.
  - `VertexTransformTask::doWork` takes an arbitrary map in place of the matrix product.
  - `RenderLineTask::doWork` does the edge culling and the perspective divide, and returns the `gl::line` calls it makes.
- `App` (app.dfy): the `main.cpp` logic.
  - How each stage splits its vertices or faces between the 16 tasks.
  - The render mode and the key presses that change it.
  - The events that ask for a redraw.
  - The preparation of each frame.
- `Words` and `Results` (words.dfy, results.dfy): machine integer subsets (`uint8_t`, `uint32_t`) and Option/Result values.

The application starts in the `Lines` mode (`App.InitialMode`, main.cpp:47).
The thread pool is modelled as running a stage's tasks one after another, in
any order. The lemmas show that the final vertex list and the final line image
do not depend on that order.

## Model

| member | source | states |
|---|---|---|
| Colors.Default | color.cpp:5 | The default colour has alpha 0 and packs to the word 0. |
| Colors.FromBytes | color.cpp:7-9 | The byte constructor sets alpha to 0. Red, green and blue unpack from the packed word unchanged. The word is below 2^24. |
| Colors.Channel | color.cpp:12-14 | One channel of the float constructor, taking the truncated product `int(x * 255)`. A value in [0, 255] is kept and a larger one saturates at 255. A negative one wraps modulo 256 when stored in `uint8_t`. |
| Colors.FromScaled | color.cpp:11-16 | The float constructor sets alpha to 0. For non-negative truncated products, each channel is `min(t, 255)`. |
| Colors.Pack | color.cpp:18-21 | The packed word `(a << 24) + (r << 16) + (g << 8) + b`. `Colors.PackUnpack` shows that shifting and masking gives every channel back, and `Colors.PackInjective` that no two colours share a word. |
| Colors.PackUnpack | color.cpp:18-21 | Shifting and masking the packed word gives back all four channels. No channel carries into its neighbour. |
| Colors.PackInjective | color.cpp:18-21 | Two colours with the same packed word are the same colour. |
| Colors.PackOpaqueRange | color.cpp:19-20 | With alpha 0 the packed word is `r * 2^16 + g * 2^8 + b`, below 2^24. |
| Colors.ConstructorsHaveNoAlpha | color.cpp:5-15 | After each of the three constructors, the top byte of the packed word is 0. |
| Images.CellInBuffer | image.cpp:32 | Under the invariant, the cell `width * y + x` of every in-bounds pixel lies inside the buffer. So every in-bounds `set` writes a valid index. |
| Images.CellInjective | image.cpp:32 | Distinct in-bounds pixels occupy distinct cells. |
| Images.Make | image.cpp:8-12 | The constructor stores the given width and height and a zero-filled buffer of exactly `w * h` cells, establishing the invariant. |
| Images.Size | image.cpp:14 | `size()` never exceeds the buffer length. |
| Images.Clear | image.cpp:16-18 | Every cell becomes the colour, including cells beyond `width * height`. The width, height and buffer length are unchanged. |
| Images.Resize | image.cpp:20-25 | Resize stores the new width and height. The buffer length becomes `max(old length, w * h)`, so it never shrinks. The old contents are kept and the invariant holds again. |
| Images.Set | image.cpp:27-33 | An out-of-bounds pixel leaves the image unchanged. An in-bounds pixel writes cell `width * y + x` and no other cell. Both keep the invariant. |
| Images.SetThenGet | image.cpp:27-33 | Reading an in-bounds pixel after setting it gives the colour written. |
| Images.SetKeepsOtherPixels | image.cpp:32 | Setting one pixel leaves the colour of every other in-bounds pixel unchanged. |
| Images.SetCommutes | image.cpp:27-33 | Sets to two different pixels give the same image in either order. |
| Images.SetLastWins | image.cpp:27-33 | A second set of the same pixel hides the first. |
| Images.ClearAfterSet | image.cpp:16-18 | Clearing discards every earlier set. |
| Images.ResizeSmallerKeepsBuffer | image.cpp:20-25 | A resize to a smaller frame keeps the whole buffer, so `size()` is then strictly smaller than the buffer length. |
| Images.ResizeTwice | image.cpp:20-25 | After two resizes, the buffer length is the largest of the original length and both requested areas. The original contents survive. |
| Gl.Normalize | gl.cpp:11-20 | After the steep swap and the endpoint swap: the major coordinate grows, and the minor run is at most the major run. The major run is `max(|dx|, |dy|)`. The line is steep exactly when `|dx| < |dy|`. Transposing back gives the two original endpoints, possibly in exchanged order. |
| Gl.ErrorBounded | gl.cpp:23-36 | The doubled error term stays in `(-dx, dx]`. |
| Gl.MinorStepsNext | gl.cpp:32-35 | One iteration advances the minor coordinate exactly when the updated error exceeds `dx`. |
| Gl.ErrorNext | gl.cpp:32-35 | The error update adds `2 * |dy|`. One subtraction of `2 * dx` brings it back into range, because `|dy| <= dx` after the swap. |
| Gl.MinorStepsRange | gl.cpp:26-37 | The minor coordinate takes 0 steps at the start and exactly `|dy|` steps after `dx` iterations, never more. |
| Gl.MinorStepsIncrement | gl.cpp:33-35 | Each iteration takes zero or one minor step. |
| Gl.WalkClosedForm | gl.cpp:21-37 | The loop's own state after `i` iterations (minor coordinate and error term) equals the closed form. The error stays in `(-dx, dx]`. |
| Gl.AdvanceClosedForm | gl.cpp:32-36 | One iteration's error update and minor step carry the closed-form state after `i` iterations to the one after `i + 1`. |
| Gl.WalkPixels | gl.cpp:26-31 | The pixels traced by the loop state are the closed-form pixels. |
| Gl.LinePixels | gl.cpp:21-37 | The closed form has `max(|x1-x0|, |y1-y0|) + 1` pixels. |
| Gl.Line | gl.cpp:10-38 | The loop makes exactly `max(|x1-x0|, |y1-y0|) + 1` calls to `set`, one per iteration. Steep lines are written transposed. The calls are exactly the closed-form pixels. |
| Gl.LineLoop | gl.cpp:21-37 | On swapped arguments, the loop with its integer error term writes exactly the closed-form pixels, in order. |
| Gl.PixelsEnds | gl.cpp:26-37 | The first write is the normalised start point. After `dx` steps the minor coordinate is exactly `y1`. |
| Gl.LinePixelsEndpoints | gl.cpp:10-38 | Both original endpoints are among the written pixels. |
| Gl.NormalizeSymmetric | gl.cpp:17-20 | `line(a, b)` and `line(b, a)` reach the loop with identical arguments. |
| Gl.LinePixelsSymmetric | gl.cpp:17-20 | `line(a, b)` and `line(b, a)` write the same pixels in the same order. |
| Gl.LinePixelsConnected | gl.cpp:26-36 | Consecutive writes are 8-connected: the larger of their coordinate differences is exactly 1. |
| Gl.LinePixelsMonotone | gl.cpp:26-36 | No write moves either coordinate away from the last pixel, so the line runs monotonically from one endpoint to the other. |
| Gl.CrossReverse | gl.cpp:17-20 | Exchanging the endpoints negates the cross product used to measure distance from the segment. |
| Gl.CrossTranspose | gl.cpp:12-16 | Transposing all three points negates the cross product. |
| Gl.LinePixelsNearLine | gl.cpp:12-37 | Every written pixel is a point of the original segment up to rounding. It lies in the endpoints' bounding box, and its doubled cross product with the segment is at most `max(|dx|, |dy|)`, so it is within half a pixel along the minor axis. |
| Gl.Plot | gl.cpp:26-31 | Writing a sequence of pixels keeps the image's invariant, width, height and buffer length. |
| Gl.PlotEffect | gl.cpp:26-31 | After the writes, a cell holds the colour exactly when some in-bounds pixel of the sequence occupies it. Every other cell keeps its old value. |
| Gl.DrawLine | gl.cpp:10-38 | Drawing a line keeps the image's invariant and dimensions. |
| Gl.DrawLineSymmetric | gl.cpp:17-20 | Drawing a line either way round gives the same image. |
| Gl.DrawLinePaintsEndpoints | gl.cpp:10-38 | After drawing, each endpoint that lies inside the image has the given colour, whether or not the other endpoint does. |
| Gl.PlotPaints | gl.cpp:26-31 | A written pixel that lies inside the image reads back in the written colour after all the writes, since the writes all carry one colour. |
| Geometry.PeerDotAntisymmetric | geometry.cpp:39 | `peerDot` is antisymmetric, and a vector crossed with itself gives 0. |
| Geometry.PeerDotLinear | geometry.cpp:39 | `peerDot` is linear in its first argument. |
| Geometry.AreasArePeerDots | geometry.cpp:27-29 | `ABC`, `BCP` and `CAP` are `peerDot`s of edge vectors. |
| Geometry.PeerDot | geometry.cpp:39 | The 2D cross product `a.x * b.y - a.y * b.x`. `Geometry.PeerDotAntisymmetric` and `Geometry.PeerDotLinear` give its algebra, and `Geometry.AreasArePeerDots` the areas built from it. |
| Geometry.CramerWeights | geometry.cpp:27-31 | With `ABC != 0`, `u = BCP/ABC`, `v = CAP/ABC` and `1 - u - v` are affine weights of `P`. They sum to 1 and reproduce P's x and y. |
| Geometry.WeightsUnique | geometry.cpp:27-31 | A non-degenerate triangle gives every point only one set of weights. |
| Geometry.Barycentric | geometry.cpp:22-37 | The result is either the sentinel `(-1, 1, 1)` or affine weights of `P`. |
| Geometry.BarycentricSpec | geometry.cpp:33-36 | Given P's true weights: the result is those weights when the third is more than 0.01 from zero, and the sentinel otherwise. |
| Geometry.BarycentricInsideExample | geometry.cpp:27-34 | For A=(0,0), B=(4,0), C=(0,4) and P=(1,1), the result is `(0.5, 0.25, 0.25)`. |
| Geometry.BarycentricOutsideExample | geometry.cpp:27-34 | For the same triangle and P=(3,3), the result is `(-0.5, 0.75, 0.75)`, with a negative first weight. |
| Geometry.BarycentricRejectsEdgeAB | geometry.cpp:33-36 | Every point of edge AB, vertices A and B included, gets the sentinel. Vertex C gets `(0, 0, 1)`. |
| Geometry.BarycentricChecked | geometry.cpp:22-37 | The corrected test also returns either the sentinel or true weights, and needs no precondition. |
| Geometry.BarycentricCheckedSpec | geometry.cpp:22-37 | The corrected test gives exact weights for every triangle with doubled area above 0.01, so it covers exactly the closed triangle, edges included. A degenerate triangle covers nothing. |
| Meshes.ToIndex | model.cpp:51 | A stored corner is the file's `v/uv/n` with every index less one. |
| Meshes.ToIndexRoundTrip | model.cpp:51 | The conversion loses nothing: the file's corner can be recovered. |
| Meshes.Kind | model.cpp:24-45 | The dispatch of one line on its prefix, tested in the source's order. `Meshes.KindByPrefix` states which prefix selects which kind. |
| Meshes.ReadLines | model.cpp:18-58 | The read loop over the file's lines, line by line. A face line without exactly three corners ends it with `NotTriangulated`. `Meshes.ReadLinesSpec` states its result. |
| Meshes.Load | model.cpp:10-68 | The constructor: open, read, then fill `transformed` with w = 1. `Meshes.LoadSpec` states its result. |
| Meshes.NFaces | model.cpp:77 | `nfaces()` is the corner count divided by three, rounded down. |
| Meshes.VertIdx | model.cpp:87-89 | The vertex index of corner `nth` of face `iface`: entry `3 * iface + nth` of the flat corner list. `Meshes.LoadedFaceAccess` ties it to the file's face lines. |
| Meshes.NormIdx | model.cpp:95-97 | The normal index of the same corner. `Meshes.LoadedFaceAccess` ties it to the file's face lines. |
| Meshes.FaceVert | model.cpp:83-85 | The vertex named by that corner. `Meshes.LoadedFaceAccess` states which vertex line it comes from. |
| Meshes.NVerts | model.cpp:73 | `nverts()` is the vertex count. `Meshes.LoadSpec` states that it counts the file's `v` lines. |
| Meshes.NNorms | model.cpp:75 | `nnroms()` is the normal count. `Meshes.LoadSpec` states that it counts the file's `vn` lines. |
| Meshes.Vert | model.cpp:79 | `vert(i)` is vertex `i`. `Meshes.ReadLinesSpec` states that it is the vertex read from the `i`-th `v` line. |
| Meshes.Norm | model.cpp:81 | `norm(i)` is normal `i`. `Meshes.ReadLinesSpec` states that it is the normal read from the `i`-th `vn` line. |
| Meshes.FaceNorm | model.cpp:91-93 | The normal named by that corner. `Meshes.LoadedFaceAccess` states which normal line it comes from. |
| Meshes.KindByPrefix | model.cpp:24-45 | The prefixes `"o "`, `"v "`, `"vn "` and `"f "` exclude each other. A line is of a kind exactly when it starts with that kind's prefix, and is ignored exactly when it starts with none. |
| Meshes.ReadLinesSpec | model.cpp:18-58 | Reading succeeds exactly when every face line has three corners, and otherwise fails with the not-triangulated error. On success the vertices and normals are those of the `v` and `vn` lines, in file order. There are three corners per `f` line. Other lines add nothing. |
| Meshes.FaceCorner | model.cpp:45-57 | Stored corner `3 * j + k` is corner `k` of the `j`-th face line, made 0-based. |
| Meshes.LoadSpec | model.cpp:10-68 | A file that cannot be opened gives an error, as does a non-triangular face. Otherwise: `nverts`, `nnroms` and `nfaces` count the `v`, `vn` and `f` lines. `transformed` has one entry per vertex, equal to the vertex with w = 1. |
| Meshes.LoadedFaceAccess | model.cpp:83-97 | In a loaded model, `vertIdx(iface, k)` and `normIdx(iface, k)` read the file's indices, less one, for corner `k` of face line `iface`. `vert(iface, k)` and `norm(iface, k)` are the vertex and the normal read from the lines those indices name, and `nnroms` counts the `vn` lines. |
| Render.TransformSpan | render.cpp:12-15 | One vertex task writes `mvp(vert(i), 1)` into each slot of its range. Every other slot, and the vertices, faces and normals, stay unchanged. |
| Render.VertexTransform | render.cpp:8-16 | The loop writes exactly the slots of its range, each with the transformed vertex. Every other slot is unchanged. |
| Render.TransformSpansCommute | render.cpp:12-15 | Two vertex tasks give the same list in either order, even when their ranges overlap. |
| Render.TransformSpanIdempotent | render.cpp:12-15 | Running a vertex task twice leaves the same list as running it once. |
| Render.TransformAllEffect | render.cpp:12-15 | After any sequence of vertex tasks, a slot holds the transformed vertex exactly when some task's range holds it, and its old value otherwise. |
| Render.TransformAllComplete | render.cpp:12-15 | Tasks whose ranges cover every vertex leave the whole list transformed. |
| Render.Trunc | render.cpp:50 | The `float` to `int` conversion at the `gl::line` call truncates toward zero. |
| Render.TruncOdd | render.cpp:50 | Truncation is odd and keeps integers. |
| Render.Divide | render.cpp:38-39 | The perspective divide sets w to 1 and scales x, y and z by `1/w`. |
| Render.EdgeLine | render.cpp:35-50 | An edge is drawn exactly when both w are positive, both divided z lie in [0.1, 100], and the box of the divided ends meets the image: its largest x and y are at least 0, and its smallest x and y are below the width and height. Otherwise it is skipped. A drawn edge is white, from the truncated divided ends. |
| Render.EdgeLineSymmetric | render.cpp:35-50 | Swapping an edge's ends swaps the line's ends and changes nothing else. |
| Render.EdgeLineScaleInvariant | render.cpp:35-50 | Scaling both homogeneous ends by the same positive factor does not change the outcome. |
| Render.CullingKeepsVisibleEdges | render.cpp:44-48 | An edge that passes the w and depth tests but is skipped has no point of its divided segment inside the image's extent. |
| Render.FaceLinesShape | render.cpp:32-50 | A face gives at most three lines, all white. |
| Render.LineTaskShape | render.cpp:25-52 | A line task draws at most three lines per face of its range, all white. |
| Render.LineTaskSplit | render.cpp:25 | Splitting a face range between two tasks splits the lines between them, in face order. |
| Render.RunEdge | render.cpp:33-50 | One edge makes at most one call. It makes one exactly when both w are positive, both divided depths lie in the depth range, and the edge's box meets the image. That call draws in white between the truncated divided ends. |
| Render.RunTriangle | render.cpp:32-51 | The edge loop visits edges 0-1, 1-2 and 2-0 and makes at most three calls. |
| Render.RunFace | render.cpp:26-51 | The loop body for one face reads its three transformed corners and appends exactly that face's calls to the task's earlier ones. |
| Render.LineTaskStep | render.cpp:25 | One more face appends that face's calls to those of the faces before it. |
| Render.RunLineTask | render.cpp:20-53 | The task's face loop makes the calls of its range's faces, face by face in order. |
| Render.DrawAll | render.cpp:50 | Drawing a list of lines keeps the image's invariant and dimensions. |
| Render.DrawAllEffect | render.cpp:50 | Lines of one colour leave a cell in that colour exactly when one of them passes over it, and untouched otherwise. |
| Render.SameLinesSameImage | render.cpp:50 | Two lists of one-colour lines that hold the same lines draw the same image, whatever the order and repetition. |
| App.TailSplit | main.cpp:192-205 | The vertex split: sixteen ranges `[i*k, (i+1)*k)` with `k = n / 16`, then one more task `[15*k, n)`. |
| App.RegularSplit | main.cpp:259-268 | The triangle split: the sixteen regular ranges only. |
| App.RegularFits | main.cpp:192-198 | Every regular range lies within `[0, n]`. |
| App.RegularCover | main.cpp:192-198 | The regular ranges together hold exactly the items below `16 * k`. |
| App.TailSplitSpec | main.cpp:192-205 | The vertex and line split stays inside the list and gives every item to some task. Every item from `15 * k` up to `16 * k` goes to two tasks: the last regular one and the extra one. |
| App.RegularSplitSpec | main.cpp:259-268 | The triangle split stays inside the list but gives out only the items below `n - n % 16`. When `n % 16 != 0`, the last item goes to no task. |
| App.FaceSplit | main.cpp:209-219 | The face stage's split for each mode: the vertex-style split with the extra task in `Lines` mode, and the 16 regular tasks otherwise. `App.FaceSplitComplete` states which faces it covers. |
| App.FaceSplitComplete | main.cpp:283-292 | Every face goes to some task exactly when the mode draws lines or the face count is a multiple of 16. |
| App.PartitionSplit | main.cpp:192-205 | The corrected split is the sixteen regular ranges, the last one stretched to the end of the list. |
| App.PartitionOrdered | main.cpp:192-205 | The ranges of the corrected split follow each other in order. |
| App.PartitionSplitSpec | main.cpp:192-205 | The corrected split gives every item to exactly one task, and nothing else. |
| App.FaceSplitCorrectedComplete | main.cpp:259-268 | With the corrected split, every face goes to a task in every mode, and the line stage still draws what a single pass draws. |
| App.ModeKeys | main.cpp:129-140 | Keys `1`, `2` and `3` select Lines, TriangleSimpleLight and SpecLight from any mode. Every other key keeps the mode. |
| App.ModeForKey | main.cpp:129-140 | The key switch: keys `1`, `2` and `3` pick a mode, any other key keeps it. `App.ModeKeys` states it for every mode. |
| App.OnEvent | main.cpp:102-148 | One event's effect on the loop flag, the redraw flag and the mode. `App.PollSpec` states the effect of a batch. |
| App.Poll | main.cpp:98-149 | The inner event loop, one event after another. `App.PollSpec` states its result. |
| App.PollSpec | main.cpp:98-149 | After a batch of events: the frame is redrawn exactly when one of them asks for it, and every key press does. The loop ends exactly when a quit or a close of this window arrives. The mode is the one chosen by the last press of `1`, `2` or `3`. With no such press, the mode is unchanged. |
| App.PrepareFrame | main.cpp:156-168 | The frame image is resized to the window and all black. `size()` words can be copied out of it. |
| App.VertexStageComplete | main.cpp:192-207 | The tasks of the vertex split, run in any order (any sequence holding the same tasks), leave every vertex transformed. |
| App.StageMatchesSinglePass | main.cpp:230-242 | Line tasks that together hold exactly the model's faces draw the same image as one pass over all faces, in any order and with shared faces. |
| App.LineStageMatchesSinglePass | main.cpp:230-242 | The line stage as written draws the same image as a single pass over all faces, although two of its tasks share faces. |

## Left out

- The thread pool and the spinlock are not modelled. A stage's tasks are modelled as running one after another; data races between tasks are outside the model.
- The camera, the shaders, the view and viewport matrices, `glm::perspective` and the SDL window and surface calls are float or I/O code outside the core and are not modelled.
- `Image::Image()` is not modelled. It leaves width and height unset. `Image::data()` is not modelled either; it only exposes the buffer.
- `gl::triangle`, `gl::halfSpaceTriangle`, `ZBuffer`, `RenderTriangleTask` and `RenderSpecTask` are not modelled: they fill triangles rather than draw the wireframe, and their definitions are not part of this model. Only the way `main.cpp` splits their faces is modelled.
- `Model::triangulate()` has an empty body, so nothing is modelled for it.
- `rangeNorms` of the vertex task is not modelled. The task never reads it.
- Meshes.ReadLines: the reading of numbers inside a line is a `Reader` of functions the model is parameterised by. This covers stream extraction of floats and of `v/uv/n` corners, the `normalize` of normals and the object name. Only the prefix dispatch, the corner count and the index layout are exact.
- Meshes.LoadSpec: "cannot open the file" is an input (`None`) rather than a file-system call.
- Render.VertexTransform: the product `viewport * proj * view * transform` is an arbitrary map `mvp` on homogeneous points. Matrix arithmetic is not modelled. It requires the range to lie inside the vertex list, since the source would read out of bounds otherwise.
- Render.EdgeLine: it requires that neither w be zero when both are non-negative. The source divides by w there. A float division by zero gives infinities, or NaN for `0 / 0`, and the model's reals cannot express either. A NaN depth fails both `z < 0.1` and `z > 100`, so the source would keep such an edge.
- Render.EdgeLine: the divide, the depth window and the box tests are computed over exact reals, not `float`. Near the thresholds the source's rounded values can take the other branch.
- Render.EdgeLine: the `float` to `int` conversion of an out-of-range value is undefined in C++ and is not modelled. Truncation is modelled over all reals.
- Render.RunLineTask: it requires every corner's vertex number to name an existing transformed vertex. The loader stores `v - 1` unchecked (model.cpp:50-52), and render.cpp:27-29 would read out of bounds for a bad index.
- Render.RunLineTask: the task returns the `gl::line` calls it makes. Their effect on the image is `Render.DrawAll`.
- Gl.Line: the method returns the pixels passed to `Image::set` rather than writing them. Their effect on the image is `Gl.DrawLine` and `Gl.Plot`. 32-bit overflow of the coordinate arithmetic is not modelled.
- Geometry.Barycentric: it requires `ABC != 0`, since the source divides by it. `float` rounding is not modelled; the model computes over exact reals, so results agree with the source only up to rounding.
- Colors.Channel: the float product `x * 255` and its truncation are the caller's input. Only the clamp and the store into `uint8_t` are modelled.
- Images.Make: it requires non-negative width and height. The source does not check them; every caller passes non-negative sizes (the `WIDTH` and `HEIGHT` constants at main.cpp:83). Negative sizes are not modelled.
- Images.Resize: it requires non-negative width and height. The source does not check them either; its caller passes the window surface's size (main.cpp:159). Negative sizes are not modelled.
- Images: `width * height` and `width * y + x` are computed in 32-bit `int` in the source (image.cpp:11, 23, 32). The model uses unbounded integers, so it does not model overflow for frames of more than 2^31 cells. It also does not model the `int` to `size_t` conversion in the comparison at image.cpp:23.
- App.PollSpec: the camera movements made by wheel and mouse events are not modelled. Only their request for a redraw is.

## Findings

| source | as written | input that shows it | evidently intended | confidence | as-written member | corrected member |
|---|---|---|---|---|---|---|
| geometry.cpp:33-36 | The 0.01 tolerance test is applied to the third weight `1 - u - v`, so any point with that weight near zero gets the sentinel `(-1, 1, 1)`. | Any non-degenerate triangle with P = A, or P the midpoint of AB: both have third weight 0 and are reported outside. | Guard the division by the triangle's doubled area `ABC`, and return the exact weights otherwise. | medium, not executed | Geometry.BarycentricRejectsEdgeAB | Geometry.BarycentricCheckedSpec |
| main.cpp:259-268 | `range.second = nfaces` is assigned after the last task was handed over, so it changes no task. | 17 faces: `k = 1`, the tasks cover faces 0 to 15, and face 16 is never drawn. | The last task's range ends at `nfaces`. | high, not executed | App.RegularSplitSpec | App.PartitionSplitSpec |
| main.cpp:283-292 | The same late assignment in the specular stage. | 17 faces in SpecLight mode: face 16 goes to no task. | The last task's range ends at `nfaces`. | high, not executed | App.FaceSplitComplete | App.FaceSplitCorrectedComplete |
| main.cpp:195-205 | An extra task `[15k, n)` is added beside the regular task `[15k, 16k)`, so the ranges overlap. The same happens for faces at main.cpp:232-240. The results are unaffected, as `Render.TransformSpansCommute` and `App.LineStageMatchesSinglePass` show, but the work is duplicated and two threads write the same slots. | 16 vertices: `k = 1`, and vertex 15 goes to tasks 15 and 16. | Every item goes to exactly one task. | medium, not executed | App.TailSplitSpec | App.PartitionSplitSpec |
