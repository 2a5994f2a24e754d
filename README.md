# RayTracing core in Dafny

A model of the discrete and comparison-based core of a CPU path tracer written in C++. It covers:

- **Chunked rendering** (module `Chunks`, and module `Cameras` with class `Camera`):
  - `partition` tiles the image into `ImageChunk`s in row-major order;
  - `RenderWorker` fills each chunk's `partial` grid with the mean of `sample_count` samples, gamma-corrected;
  - `Render` drains the finished chunks back into the image;
  - the integer configuration setters.
- **The `rayColor` integrator** (module `Integrator`). It is recursive over the bounce depth, and the world's `hit` and the materials' `emitted`/`scatter` are uninterpreted functions.
- **IEEE-style doubles with infinities and NaN** (module `Doubles`). These are the endpoints of `Interval` (module `Intervals`) and `AABB` (module `Boxes`):
  - `within`, `surround`, `clamp`, `expand` and the union constructor;
  - the two-point, union and `pad` boxes;
  - `axis`;
  - the slab test `AABB::hit`, as a loop proved against a specification function.
- **The algebraic Perlin helpers** (module `Perlin`): `gradientDotProd`, `fade` and `lerp`.
- **Scene intersection** (modules `Hittables` and `ClosestHit`):
  - a closed `Hittable` datatype (sphere, quad, list, BVH node);
  - `setFaceNormal`;
  - sphere root selection and moving spheres;
  - quad acceptance;
  - the list's closest-hit scan;
  - BVH traversal, proved to agree with the list scan over the same objects whenever every object is hit only inside its box.
- **`HittableList` as a class** (module `HittableLists`): `add`, `clear`, `hit` and the inline `box` helper that builds six quads.
- **BVH construction** (module `Bvh`): sorting a range by axis-min on an array, splitting at the midpoint, and the special cases for spans of one and two.
- **Utilities** (module `ImageUtil`):
  - `split`;
  - the integer `clamp`;
  - the `Image::pixelData` offset arithmetic;
  - `makeGrayscaleString`.

## Numeric conventions

- Geometry (points, directions, colours) is over `real`.
- `Interval` and `AABB` endpoints are `Double = Finite(real) | PosInf | NegInf | NaN`. This way the default interval (-INF, INF), the division by a zero direction component in the slab test, and `fmin`/`fmax` on NaN are all represented.
- `std::sqrt` is a parameter of the sphere test. Lemmas that need the true root require it to be exact on non-negative arguments.
- The C++ integer division in `setChunkDimension` is modelled as truncation toward zero (`TruncDiv`).
- The default `AABB()` constructor is not part of this model. The model takes it to default-construct its three intervals, giving (-INF, INF) on every axis (`DefaultBox`).

## Model

| member | source | states |
|---|---|---|
| Doubles.FMin | src/MathUtil.cpp:37 | for two numbers, the result is one of them and not above either; a NaN argument yields the other argument |
| Doubles.FMax | src/MathUtil.cpp:38 | for two numbers, the result is one of them and not below either; a NaN argument yields the other argument |
| Intervals.Surround | src/MathUtil.cpp:34-35 | a strictly surrounded value is a number, within the closed interval and different from both ends |
| Intervals.Union | src/MathUtil.cpp:36-39 | for numeric ends, the new min is the smaller of the two mins and is one of them; likewise the new max |
| Intervals.UnionContains | src/MathUtil.cpp:36-39 | the union contains every value either input contains |
| Intervals.UnionCommutative | src/MathUtil.cpp:36-39 | the order of the two intervals does not matter |
| Intervals.UnionAssociative | src/MathUtil.cpp:36-39 | unions can be regrouped |
| Intervals.UnionIdempotent | src/MathUtil.cpp:36-39 | an interval united with itself is unchanged |
| Intervals.UniverseAbsorbs | src/MathUtil.cpp:36-39 | the default (-INF, INF) united with any interval with numeric ends stays (-INF, INF) |
| Intervals.Clamp | src/MathUtil.cpp:41-47 | values inside are unchanged, values below give min, values above give max, NaN passes through, and the result lies in [min, max] when min <= max |
| Intervals.ExpandSize | src/MathUtil.cpp:49-52 | expanding by d grows the size by exactly d, and for d >= 0 keeps every contained value |
| Boxes.Axis | src/MathUtil.cpp:62-73 | succeeds exactly for axes 0, 1, 2, with x, y, z; any other index is the out-of-range error |
| Boxes.FromPoints | src/MathUtil.cpp:54-58 | each axis is [fmin, fmax] of the two points' components |
| Boxes.FromPointsSymmetric | src/MathUtil.cpp:54-58 | the box does not depend on the order of the points, has min <= max on every axis and contains both points |
| Boxes.Union | src/MathUtil.cpp:96-100 | each axis is the interval union of the two boxes' axes |
| Boxes.UnionEncloses | src/MathUtil.cpp:96-100 | the union of two NaN-free boxes encloses both and is NaN-free |
| Boxes.BoxUnionCommutative | src/MathUtil.cpp:96-100 | box union does not depend on argument order |
| Boxes.BoxUnionAssociative | src/MathUtil.cpp:96-100 | box unions can be regrouped |
| Boxes.BoxUnionIdempotent | src/MathUtil.cpp:96-100 | a box united with itself is unchanged |
| Boxes.DefaultBoxAbsorbs | src/MathUtil.cpp:96-100 | the default box united with any NaN-free box is still the default box |
| Boxes.PadAxis | src/MathUtil.cpp:102-111 | an axis whose size is at least 0.0001 in absolute value is left unchanged |
| Boxes.PadAxisWidens | src/MathUtil.cpp:102-111 | a finite axis with min <= max ends with size >= 0.0001 and still covers its old range |
| Boxes.PadEncloses | src/MathUtil.cpp:102-111 | the padded box encloses the original and every axis has size >= 0.0001 |
| Boxes.Hit | src/MathUtil.cpp:75-95 | the three-axis loop returns exactly the slab test of the specification |
| Boxes.SlabStepNarrows | src/MathUtil.cpp:87-88 | each axis step only raises the running min or lowers the running max |
| Boxes.EmptyPersistsFrom | src/MathUtil.cpp:76-93 | once the running interval is empty, it stays empty through the remaining axes |
| Boxes.SlabHitIsFinalCheck | src/MathUtil.cpp:75-95 | the early exits give the same answer as checking only the interval left after all three axes |
| Boxes.RunFromWithin | src/MathUtil.cpp:76-93 | every value in the narrowed interval was in the starting interval |
| Boxes.SlabSound | src/MathUtil.cpp:75-95 | for a finite box, any t left after the slab steps is in the ray interval, and the ray point at t is inside the box |
| Boxes.StepSound | src/MathUtil.cpp:77-88 | for a finite box, a t kept by one axis step puts the ray between that axis's planes, for a positive, negative or zero direction component |
| Boxes.SlabComplete | src/MathUtil.cpp:75-95 | conversely, when the ray is inside the box at some t of the interval, the slab test reports a hit |
| Boxes.ParallelMissesBox | src/MathUtil.cpp:77-91 | a ray with zero direction components on axes 0 and 1, between the planes of axis 0 and above those of axis 1, misses the box (1 / 0 = +INF) |
| Perlin.LowNibble | src/MathUtil.cpp:117 | `hash & 0xF` is in 0..15 |
| Perlin.GradientDotProdIsDot | src/MathUtil.cpp:113-153 | every case is the dot product with one of the 16 gradient vectors chosen by the low nibble |
| Perlin.GradientDotProdPeriodic | src/MathUtil.cpp:117 | adding any multiple of 16 to the hash does not change the result |
| Perlin.RepeatedGradients | src/MathUtil.cpp:142-149 | cases 0xC, 0xD and 0xF equal cases 0x0, 0x9 and 0xB |
| Perlin.Fade | src/MathUtil.cpp:155 | fade(0) = 0 and fade(1) = 1 |
| Perlin.FadeSymmetric | src/MathUtil.cpp:155 | fade(1 - t) = 1 - fade(t) |
| Perlin.Lerp | src/MathUtil.cpp:157 | weight 0 gives begin and weight 1 gives end |
| Perlin.LerpBetween | src/MathUtil.cpp:157 | a weight in [0, 1] keeps the result between begin and end |
| Vectors.DotAlongRay | src/MathUtil.cpp:25 | along `at(t)`, the dot product with a fixed vector is affine in t |
| Hittables.SetFaceNormal | src/GraphicObjects.cpp:52-55 | front_face holds iff the outward normal opposes the ray; the stored normal is the outward normal or its negation, never facing along the ray; other fields are untouched |
| Hittables.MakeSphere | src/GraphicObjects.cpp:13-16 | builds a static sphere with the given centre and radius |
| Hittables.MakeMovingSphere | src/GraphicObjects.cpp:99-107 | builds a moving sphere starting at the first centre, whose motion vector is the difference of the centres |
| Hittables.SphereCentres | src/GraphicObjects.cpp:109-112 | a static sphere is at its centre at every time; a moving one is at the first centre at time 0 and the second at time 1 |
| Hittables.StaticSphereBox | src/GraphicObjects.cpp:13-16 | the box extends one radius on each side of the centre on every axis |
| Hittables.MovingSphereBoxHoldsPath | src/GraphicObjects.cpp:99-107 | for every time in [0, 1], the box holds the centre plus and minus the radius on every axis |
| Hittables.ChooseRoot | src/GraphicObjects.cpp:29-35 | the smaller root if strictly inside the interval, else the larger if strictly inside, else no hit |
| Hittables.SphereHit | src/GraphicObjects.cpp:18-43 | a negative discriminant misses; a hit has t strictly inside the interval, the point at t, the sphere's material and a normal facing against the ray |
| Hittables.SphereRecord | src/GraphicObjects.cpp:36-41 | the record holds the root, the point at the root and the material, with the face-normal convention |
| Hittables.SphereRootFacts | src/GraphicObjects.cpp:25-35 | the sphere hits exactly when a root is chosen, at that root |
| Hittables.SphereRootSolves | src/GraphicObjects.cpp:25-35 | with an exact square root, a chosen root solves the ray-sphere quadratic |
| Hittables.SphereHitOnSurface | src/GraphicObjects.cpp:18-43 | with an exact square root, a hit point lies on the sphere at the ray's time |
| Hittables.SphereHitNearest | src/GraphicObjects.cpp:18-43 | any contact strictly inside the interval is matched or beaten by the reported hit |
| Hittables.SphereMissMeansNoContact | src/GraphicObjects.cpp:18-43 | a miss means no point of the ray strictly inside the interval touches the sphere |
| Hittables.MakeQuadAsWritten | src/GraphicObjects.cpp:188-195 | builds a quad from its unit normal, with D = n . Q and w = n / (n . n) as written |
| Hittables.MakeQuad | src/GraphicObjects.cpp:184-195 | corrected constructor: builds a quad with w = (u x v) / |u x v|^2 and the padded box over all four corners |
| Hittables.QuadBoxHoldsCorners | src/GraphicObjects.cpp:184-186 | the padded box contains Q and Q + u + v and has size >= 0.0001 on every axis |
| Hittables.QuadHit | src/GraphicObjects.cpp:205-228 | parallel rays miss; a hit has t strictly inside the interval, the point at t, the material, (u, v) = (alpha, beta) in [0, 1]^2 and a normal facing against the ray |
| Hittables.QuadHitOnPlane | src/GraphicObjects.cpp:205-228 | a hit point lies on the plane n . p = D |
| Hittables.QuadHitAccepts | src/GraphicObjects.cpp:197-228 | conversely, a non-parallel ray whose plane crossing is strictly inside the interval and inside the unit square hits at that t |
| Hittables.QuadCoordinatesExact | src/GraphicObjects.cpp:188-195 | with the corrected w, the point Q + a u + b v has plane coordinates (a, b) |
| Hittables.QuadCentreMissedAsWritten | src/GraphicObjects.cpp:191-193 | with w as written, a ray through the centre of a 2 x 2 quad misses it |
| Hittables.PlaneCoordinatesRecover | src/GraphicObjects.cpp:191-193 | with the corrected w, any vector in the quad's plane is alpha u + beta v for its plane coordinates (alpha, beta) |
| Hittables.FullQuadBoxHoldsParallelogram | src/GraphicObjects.cpp:184-186 | the padded four-corner box holds every point Q + a u + b v with a, b in [0, 1] |
| Hittables.FullQuadBoxHoldsHits | src/GraphicObjects.cpp:184-228 | a quad with the corrected w and the four-corner box, whose normal is a non-zero multiple of u x v, is hit only at points of its box |
| Hittables.SkewedQuadHit | src/GraphicObjects.cpp:188-228 | the quad Q = 0, u = (1,1,0), v = (1,-1,0) with w as written is hit by the ray down through (0.5, 0.3), at that point |
| Hittables.SkewedQuadHitOutsideBox | src/GraphicObjects.cpp:184-186 | that hit, and the corners Q + u and Q + v, lie outside the box spanned by Q and Q + u + v only |
| Hittables.SkewedQuadBoxMissed | src/GraphicObjects.cpp:184-186 | the slab test of that box rejects the ray over (0.001, INF) |
| Hittables.SkewedQuadEscapesBox | src/GraphicObjects.cpp:184-186 | the same, for the box built at Q = 0 |
| Hittables.SkewedQuadFields | src/GraphicObjects.cpp:188-195 | the constructor as written, given the unit normal (u x v) / 2, builds exactly that quad with the two-corner box |
| Hittables.Hit | src/GraphicObjects.cpp:118-125 | for every kind of object, a hit has t strictly inside the interval and a normal facing against the ray |
| Hittables.ScanFrom | src/GraphicObjects.cpp:61-73 | the list scan keeps a hit strictly inside the interval and never returns one farther than the best so far |
| ClosestHit.Nearer | src/GraphicObjects.cpp:122-124 | combining two answers gives a hit iff either hit, at a t not above either, and the first one on a tie |
| ClosestHit.NearestOfIsFirstMinimum | src/GraphicObjects.cpp:61-73 | the reference answer hits iff some object hits, and is the first hit with the smallest t |
| ClosestHit.ScanFromNearest | src/GraphicObjects.cpp:61-73 | the scan with a shrinking upper bound returns the reference answer |
| ClosestHit.ListNearest | src/GraphicObjects.cpp:61-73 | a list hits iff some object hits over the whole interval, and its hit is at the smallest t among them |
| ClosestHit.NodeNearer | src/GraphicObjects.cpp:118-125 | when the box is met and the right child narrows, a BVH node answers with the nearer of its children's hits, the left one on a tie |
| ClosestHit.NodeMissesOutsideBox | src/GraphicObjects.cpp:119-121 | when the slab test fails, the node misses without consulting its children |
| ClosestHit.SphereNarrows | src/GraphicObjects.cpp:18-43 | lowering a sphere's upper bound to c keeps exactly its hit below c |
| ClosestHit.QuadNarrows | src/GraphicObjects.cpp:205-228 | lowering a quad's upper bound to c keeps exactly its hit below c |
| ClosestHit.ListNarrows | src/GraphicObjects.cpp:61-73 | a list of such objects narrows the same way |
| ClosestHit.NarrowsLowered | src/GraphicObjects.cpp:123 | narrowing survives lowering the interval's upper bound |
| BvhTraversal.NodeHitIsNearer | src/GraphicObjects.cpp:118-125 | when both children are hit only inside the node's box, the box test never skips a hit: the node answers the nearer of its children's hits |
| BvhTraversal.NodeBoxed | src/GraphicObjects.cpp:118-125 | such a node narrows and is hit only inside its box, so nodes nest |
| BvhTraversal.JoinBoxed | src/GraphicObjects.cpp:118-177 | a node boxed by the union of its children's boxes, over children hit only inside their own boxes, answers the nearer of their hits and meets the same conditions |
| BvhTraversal.NearerAmong | src/GraphicObjects.cpp:122-124 | the nearer of the nearest hits of two groups is the nearest hit of both groups together |
| BvhTraversal.ShapedNearest | src/GraphicObjects.cpp:118-178 | a tree of the construction's shape, over objects that narrow, have NaN-free boxes and are hit only inside them, answers the nearest of its leaves' hits |
| BvhTraversal.ScanAmong | src/GraphicObjects.cpp:61-73 | the list scan answers the nearest hit of its objects as a group |
| BvhTraversal.BVHMatchesScan | src/GraphicObjects.cpp:61-178 | under those conditions, the tree over [start, end) is hit exactly when the list of the same objects is, at the same t, and meets the conditions itself |
| BvhTraversal.WorldOfTree | src/scenes.cpp:96 | a list holding only the tree answers exactly what the tree answers |
| BvhTraversal.QuadBoxed | src/GraphicObjects.cpp:184-228 | corrected: a quad with the four-corner box and a normal along u x v meets the conditions |
| BvhTraversal.StaticSphereBoxed | src/GraphicObjects.cpp:13-43 | with exact square roots, a static sphere meets the conditions |
| BvhTraversal.LoneTreeCulls | src/GraphicObjects.cpp:118-158 | the tree over one object is missed by a ray that misses that object's box |
| BvhTraversal.BoxMissLosesHit | src/GraphicObjects.cpp:118-186 | a quad hit by a ray that misses its box is found by the list over it and lost by the tree over it |
| BvhTraversal.AsWrittenSkewedQuadCulled | src/GraphicObjects.cpp:184-195 | as written, the tree over the skewed quad loses the hit at (0.5, 0.3) that the plain list reports |
| HittableLists.HittableList.constructor | include/Raytracing/GraphicObjects.h:46 | a new list is empty, with the default box |
| HittableLists.HittableList.Single | src/GraphicObjects.cpp:76-79 | the list holds the one object and takes its box |
| HittableLists.HittableList.Add | src/GraphicObjects.cpp:81-84 | appends the object after the earlier ones and unites the box with the object's box |
| HittableLists.HittableList.Clear | src/GraphicObjects.cpp:86-89 | empties the list and resets the box to the default |
| HittableLists.HittableList.Hit | src/GraphicObjects.cpp:61-73 | reports a hit iff the closest-hit scan finds one and returns its record; on a miss the caller's record is returned untouched |
| HittableLists.AddedBoxesEnclose | src/GraphicObjects.cpp:81-84 | after any sequence of adds, the box encloses the start box and every added object's box |
| HittableLists.AddedToDefaultBox | src/GraphicObjects.cpp:81-84 | starting from the default box, the list's box stays the whole space |
| HittableLists.Side | include/Raytracing/GraphicObjects.h:178-183 | a side is a quad built by the constructor as written: the frame's Q, u and v, the shared material, the axis-aligned unit normal of u x v, D = n . Q and the box over Q and Q + u + v |
| HittableLists.BoxSides | include/Raytracing/GraphicObjects.h:178-183 | exactly six sides, in the order front, right, back, left, top, bottom |
| HittableLists.MakeBox | include/Raytracing/GraphicObjects.h:168-187 | the new list holds the six sides in order, and its box is what six adds from the default box give |
| HittableLists.CornersOrdered | include/Raytracing/GraphicObjects.h:171-172 | the min and max corners do not depend on argument order and are ordered on every axis |
| HittableLists.EdgesAlongAxes | include/Raytracing/GraphicObjects.h:174-176 | dx, dy and dz are axis-aligned with the non-negative extents as lengths |
| HittableLists.FramesOnFaces | include/Raytracing/GraphicObjects.h:178-183 | each side's Q and Q + u + v are corners, and the side keeps one coordinate at that axis's min or max |
| HittableLists.SidesOnFaces | include/Raytracing/GraphicObjects.h:178-183 | the same for the built quads, which share the material |
| HittableLists.SideNormalsNormalised | include/Raytracing/GraphicObjects.h:178-183 | each side's u x v is axis-aligned, and its normal scaled by the length of u x v gives u x v back |
| HittableLists.SidesCoordinateVectorAsWritten | include/Raytracing/GraphicObjects.h:178-183 | for positive extents, every side's w is its unit normal, as the constructor as written stores it |
| HittableLists.BoxListCoversSpace | include/Raytracing/GraphicObjects.h:168-187 | since the list starts from the default box, the box's own bounding box is the whole space |
| Bvh.ChooseAxis | src/GraphicObjects.cpp:153-154 | the comparator axis is always 0, 1 or 2, and equals the drawn value when that is in range |
| Bvh.Insert | src/GraphicObjects.cpp:171 | one insertion step lengthens the sorted prefix by one |
| Bvh.InsertPermutes | src/GraphicObjects.cpp:171 | inserting adds exactly the new object to the multiset |
| Bvh.InsertSorted | src/GraphicObjects.cpp:171 | inserting into a sorted sequence keeps it sorted by axis-min |
| Bvh.SortPermutes | src/GraphicObjects.cpp:171 | sorting is a permutation |
| Bvh.SortSorted | src/GraphicObjects.cpp:171 | with numeric keys, the result is sorted by axis-min |
| Bvh.SortRange | src/GraphicObjects.cpp:171 | the in-place sort changes only [lo, hi), which becomes the sorted range |
| Bvh.InsertAt | src/GraphicObjects.cpp:171 | shifting an element left into a sorted prefix gives the insertion step |
| Bvh.BVH | src/GraphicObjects.cpp:151-178 | construction always yields a node |
| Bvh.Build | src/GraphicObjects.cpp:151-178 | the recursive constructor, sorting an array copy, builds exactly the specified tree |
| Bvh.FromList | src/GraphicObjects.cpp:147-149 | a tree over a non-empty list is the tree over its whole range |
| Bvh.BVHSplits | src/GraphicObjects.cpp:170-175 | above two objects, the range is sorted and split at start + span / 2 |
| Bvh.SingleObject | src/GraphicObjects.cpp:157-159 | a span of one puts the object in both children |
| Bvh.PairOrdered | src/GraphicObjects.cpp:160-169 | a span of two keeps both objects, never puts a strictly smaller key on the right, and puts the second object left on a tie |
| Bvh.BuiltLeaves | src/GraphicObjects.cpp:151-178 | the built tree has the construction's shape (every node boxed by the union of its children, one object on both sides of a span-1 node), and its leaves are exactly the multiset of objects in [start, end) |
| Bvh.BuiltHoldsRange | src/GraphicObjects.cpp:151-178 | the same, by induction on the span through both recursive calls |
| Bvh.JoinHolds | src/GraphicObjects.cpp:170-177 | a node over the trees of the two sorted halves holds the whole unsorted range, since sorting permutes it |
| Bvh.ShapedHoldsLeaves | src/GraphicObjects.cpp:177 | every leaf of such a tree occurs in it, and with NaN-free leaves the root box is NaN-free and encloses every leaf's box |
| Bvh.LeavesOccur | src/GraphicObjects.cpp:157-175 | every leaf occurs in the tree |
| Bvh.LeavesEnclosed | src/GraphicObjects.cpp:177 | with NaN-free leaves, each node's box encloses every leaf below it |
| Bvh.OccursInShaped | src/GraphicObjects.cpp:151-178 | anything in such a tree is a node the construction made, a leaf, or part of a leaf |
| Bvh.BuiltTreeContents | src/GraphicObjects.cpp:151-178 | the built tree holds every object of [start, end), encloses their boxes when none has a NaN bound, and holds nothing else but its own nodes and parts of those objects |
| Chunks.CountIsCeiling | src/Camera.cpp:117-140 | the number of chunks along an axis is the ceiling of the extent over the dimension |
| Chunks.GridIndexed | src/Camera.cpp:114-142 | chunk k carries index k |
| Chunks.GridRowMajor | src/Camera.cpp:117-140 | chunks are emitted in strict row-major order of their starts |
| Chunks.GridShaped | src/Camera.cpp:117-139 | every chunk starts at a multiple of D inside the image, with width D unless clipped to width % D (height likewise), extents in [1, D], and an empty partial |
| Chunks.EdgeExtent | src/Camera.cpp:124-133 | an aligned start's extent is in [1, D] and ends at start + D or at the image edge |
| Chunks.GridCount | src/Camera.cpp:117-142 | the number of chunks is ceil(height / D) times ceil(width / D) |
| Chunks.GridTiles | src/Camera.cpp:117-142 | every pixel is covered by exactly one chunk |
| Cameras.TruncDiv | src/Camera.cpp:311 | for non-negative operands, C++ division is Euclidean division |
| Cameras.DefaultDimensionPositive | include/Raytracing/Camera.h:122 | the default chunk dimension is positive iff the width reaches the thread count |
| Cameras.Camera.constructor | include/Raytracing/Camera.h:119-122 | 20 samples, depth 50, the hardware thread count (12 if unknown), chunk dimension width / threads |
| Cameras.Camera.SetRenderThreadCount | src/Camera.cpp:271-277 | keeps a request that is nonzero and not above width or height, otherwise falls back; never stores 0 |
| Cameras.Camera.SetWidth | src/Camera.cpp:217-224 | stores the width and height, and falls back when the thread count exceeds either |
| Cameras.Camera.SetChunkDimension | src/Camera.cpp:310-312 | keeps a dimension not above width and height, otherwise uses width / thread count |
| Cameras.Camera.Partition | src/Camera.cpp:107-143 | the nested loops emit exactly the row-major chunk grid and return its length; an image without rows gets no chunks |
| Cameras.Camera.PixelColor | src/Camera.cpp:86-93 | the pixel is the gamma of the mean of its samples |
| Cameras.Camera.RenderChunk | src/Camera.cpp:82-97 | the chunk gets the specified grid of pixel colours |
| Cameras.Camera.Drain | src/Camera.cpp:48-55 | draining a sequence of chunks into the image gives each pixel the value of the last chunk covering it |
| Cameras.Camera.CopyChunk | src/Camera.cpp:50-54 | pixels inside the chunk take its partial values; all others keep theirs |
| Cameras.Camera.Render | src/Camera.cpp:15-62 | the image has the camera's size and every pixel is the gamma-corrected mean of its samples |
| Cameras.RenderedRows | src/Camera.cpp:82-97 | the chunk gets exactly `height` rows of exactly `width` colours |
| Cameras.MeanOfEqualSamples | src/Camera.cpp:86-91 | n equal samples average to that sample |
| Cameras.DrainDisjoint | src/Camera.cpp:48-55 | with pairwise disjoint chunks, a pixel takes the value of its covering chunk, or keeps its own if none covers it |
| Cameras.DrainOrderIrrelevant | src/Camera.cpp:48-55 | draining disjoint chunks in any arrival order gives the same image |
| Cameras.RenderedGrid | src/Camera.cpp:28 | one rendered chunk per chunk of the partition |
| Cameras.RenderedGridPlaceable | src/Camera.cpp:82-97 | each rendered chunk fits in the image with a partial of its own size |
| Cameras.RenderedGridDisjoint | src/Camera.cpp:107-143 | the partition's chunks are pairwise disjoint |
| Cameras.RenderedGridPaints | src/Camera.cpp:15-62 | draining the rendered grid paints every pixel with its own value |
| Cameras.RenderedPixel | src/Camera.cpp:82-97 | a pixel of a rendered chunk holds that pixel's value |
| Integrator.WorldScene | src/Camera.cpp:249 | the scene's hits are the world's over (EPS, INF) |
| Integrator.Trace | src/Camera.cpp:244-259 | depth <= 0 gives the empty path; a path never has more bounces than the depth, and runs out of depth only after exactly depth bounces |
| Integrator.RayColorIsPathColor | src/Camera.cpp:244-259 | the recursive colour equals the path's emissions, weighted by the attenuation so far, plus the end colour (black, background or absorbed emission) |
| Integrator.DepthBeyondPath | src/Camera.cpp:246-256 | once a path ends before the depth runs out, more depth does not change the colour |
| Integrator.RayColorNonNegative | src/Camera.cpp:244-259 | with non-negative background, emission and attenuation, the colour is non-negative |
| ImageUtil.FindFrom | src/ImageUtil.cpp:95 | `find` gives the first occurrence of the delimiter at or after the start, or reports none |
| ImageUtil.Split | src/ImageUtil.cpp:90-101 | the erase-and-push loop returns the specified token sequence |
| ImageUtil.SplitAtMatch | src/ImageUtil.cpp:95-98 | each step takes the text before the first delimiter and continues after it |
| ImageUtil.TokensClean | src/ImageUtil.cpp:95-99 | no token contains the delimiter |
| ImageUtil.TokensReassemble | src/ImageUtil.cpp:94-100 | the input is the tokens, each followed by the delimiter, then the dropped remainder |
| ImageUtil.RestClean | src/ImageUtil.cpp:94-100 | the dropped remainder contains no delimiter |
| ImageUtil.NoDelimiterNoTokens | src/ImageUtil.cpp:94-100 | the result is empty iff the input contains no delimiter |
| ImageUtil.ClampRange | src/ImageUtil.cpp:103-109 | for low < high, the result is in [low, high], equals high exactly when x == high, and is x inside |
| ImageUtil.ClampIndex | src/ImageUtil.cpp:103-109 | corrected: for low < high, the result is in [low, high), and is x inside |
| ImageUtil.PixelDataAsWritten | src/ImageUtil.cpp:136-145 | magenta iff no data is loaded |
| ImageUtil.PixelDataPastEndAsWritten | src/ImageUtil.cpp:141-144 | as written, pixel (2, 2) of a 2 x 2 image is read from 18 bytes into a 12-byte buffer |
| ImageUtil.PixelData | src/ImageUtil.cpp:136-145 | corrected: magenta iff no data is loaded |
| ImageUtil.PixelDataInBounds | src/ImageUtil.cpp:136-145 | corrected: for a loaded image and any coordinates, the three bytes read lie inside the buffer |
| ImageUtil.PixelDataRowMajor | src/ImageUtil.cpp:136-145 | inside the image, the offset is (y * width + x) * 3 |
| ImageUtil.MakeGrayscaleString | src/ImageUtil.cpp:57-66 | the row-by-row loop produces the specified text |
| ImageUtil.TextLength | src/ImageUtil.cpp:57-66 | the text has height lines of width characters plus a newline each |
| ImageUtil.TextAt | src/ImageUtil.cpp:57-66 | character j of line i is pixel (i, j)'s shade, and the last one is a newline |
| ImageUtil.TextAlphabet | include/Raytracing/ImageUtil.h:47 | with a shade function into the palette, every character is a palette character or a newline |

## Left out

- Threads, the message queues, `tryWait` and logging. Chunks are rendered one after another and drained from a sequence in any order; `DrainOrderIrrelevant` covers every arrival order of a disjoint set.
- Render: `worker_cnt` is not modelled, because it only sets the number of threads.
- File and image I/O: `makePPM`, `makeGrayscaleTxt`, `mkdir`, `Image::load` and `Image::Image`. A loaded image is a parameter that satisfies `Loaded`.
- Camera geometry and randomness: `getRay`, jitter, depth of field, `updateVectors` and `setAspectRatio`. A pixel's samples are a parameter `sample(j, i, k)`, and `gammaCorrect` is a parameter `gamma`.
- `getGreyScaleCharacter` indexes by a float. It is a parameter `shade` of `MakeGrayscaleString`. `TextAlphabet` assumes that `shade` stays inside the palette. The source does not ensure this: its index `(sum - 1) / 25.5` passes the last of the 10 palette characters once the weighted channel sum `sum` reaches 256, that is, once the weighted mean of the gamma-corrected channels exceeds 256 / 255. The light colour 15 at src/scenes.cpp:340 gives sqrt(15) = 3.87 and index 38.
- `setSampleCount` and `setRenderDepth` are plain field stores; they are not modelled.
- Cameras.Camera.SetWidth: the height `int(width / aspect_ratio)` is a parameter, because the aspect ratio is a float, and the `updateVectors` call is not modelled.
- Cameras.Camera.Render: the image starts out black. The source resizes with unspecified colours, but every pixel is overwritten anyway.
- Cameras.Camera.Render and Cameras.Camera.PixelColor require `sample_count > 0`. With 0, the source divides a colour by zero.
- Cameras.Camera.Partition requires a positive chunk dimension when the image has rows. With 0 or less, the source's loops never end. `DefaultDimensionPositive` shows this happens with the default dimension when the width is below the thread count.
- 32-bit integer overflow in the chunk and offset arithmetic: integers are unbounded.
- Floating-point rounding: values are exact reals. `HitRecord.t` being a `float` is not modelled.
- Sphere UV (`acos`/`atan2`) is kept as the symbolic outward normal.
- Quad normal normalisation (`normalized`, a square root) is not modelled: the unit normal is a constructor parameter.
- `std::sort` is modelled as a stable insertion sort. C++ leaves the order of equal keys unspecified, and the lemmas state only sortedness and permutation.
- The BVH's random axis is a parameter `axisAt(start, end)`.
- Perlin `rawNoise` and `octaveNoise` are not modelled, because their permutation table is not part of this model.
- Triangles, translations, rotations, materials and textures are not modelled, because their code is not part of this model. Materials appear only through `emitted` and `scatter`.
- Bvh.FromList and Bvh.Build require a non-empty range (`start < end`). With an empty list, the source's `BVHNode` computes a span of 0, takes the `else` branch and recurses on [0, 0) forever (src/GraphicObjects.cpp:147-149, 170-173).
- ImageUtil.Split requires a non-empty delimiter. With an empty delimiter, `find` matches at 0 and `erase(0, 0)` removes nothing, so the source loops forever (src/ImageUtil.cpp:95-98).
- Boxes.InvDir gives +INF for every zero direction component. The source's `1.0 / -0.0` is -INF, which swaps the two crossings of that axis. The model does not distinguish -0.0 from +0.0.
- Hittables.SphereRecord: for a zero radius, the source's outward normal `(p - c) / radius` is NaN (the hit point is the centre, so 0 / 0). The model has no NaN vectors and uses p - c, the zero vector, in that case.
- The GPU backend, scene builders and the demo driver are not modelled.

## Findings

| source | as written | input that shows it | evidently intended | confidence | as-written member | corrected member |
|---|---|---|---|---|---|---|
| src/GraphicObjects.cpp:191-193 | `w = normal / normal.dot(normal)` after `normal` has been normalised, so w is the unit normal and alpha, beta are scaled by the length of u x v | Q = 0, u = (2,0,0), v = (0,2,0), a ray from (1,1,1) along (0,0,-1): alpha = beta = 2, so the centre of the quad is rejected | w = n / (n . n) for the unnormalised n = u x v, giving plane coordinates (1/2, 1/2) | not executed | Hittables.QuadCentreMissedAsWritten | Hittables.QuadCoordinatesExact |
| src/GraphicObjects.cpp:184-186 | `bbox = AABB(Q, Q + u + v).pad()` spans only one diagonal, so the corners Q + u and Q + v of a skewed quad can lie outside its box, and the BVH's slab test culls hits on the quad | Q = 0, u = (1,1,0), v = (1,-1,0), and the ray from (0.5, 0.3, 1) along (0,0,-1) over (0.001, INF): the quad is hit at (0.5, 0.3, 0), but the box is flat in y ([-0.00005, 0.00005]), so the tree over the quad misses while the list reports the hit | the box over all four corners, so every hit lies in the box and the tree agrees with the list | not executed | BvhTraversal.AsWrittenSkewedQuadCulled | BvhTraversal.QuadBoxed |
| src/ImageUtil.cpp:103-109 | `if (x > high) return high - 1;` lets x == high through, so `pixelData` reads one pixel past a row or past the image | a 2 x 2 image (12 bytes) and pixel (2, 2): offset 2 * 6 + 2 * 3 = 18 | clamp into [low, high - 1], so every offset lies inside the buffer | not executed | ImageUtil.PixelDataPastEndAsWritten | ImageUtil.PixelDataInBounds |
