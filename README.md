# A teaching ray tracer, modelled in Dafny

The system is a Java ray tracer written lab by lab: an image buffer and a
disc sampler (lab A), spheres (B), a scene with background and plane (C),
Phong lighting with shadows (D), transformations and groups (E), textures
(F), recursive path tracing with mirrors, emitters and diffuse materials
(G), and bounding-box acceleration (H). The model follows the last version
of each component and keeps the earlier sphere and ray variants where they
behave differently.

Doubles are modelled as reals. `Math.sqrt`, `Math.pow` with a real
exponent, `acos`, `atan2` and the matrix operations of `lib_cgtools.Matrix`
come from a `Lib` value of function fields. The few square-root facts a
proof needs form the predicate `SqrtLaws`: the root is non-negative and
squares back to a non-negative argument. `lib_cgtools.Random` is an
explicit stream of reals (`Randomness.Stream`).

Modules, one per component:

- `Numerics`, `Linalg`, `Randomness`: reals, vectors, colours, the `Lib` of outside functions, and the random stream.
- `Rays`: the ray record with its affine `pointAt` (labs E and H) and lab C's guarded `pointAt`.
- `ExtendedReals`, `Boxes`, `BoxIntersection`: the bounding box, its lattice laws, transform, bisection and scaling, and the slab test evaluated with double semantics for infinities and NaN.
- `Samplers`: constant, clamp, "mirror repeat", repeat and gradient textures.
- `Lights`: point and directional lights and their shadow rays.
- `Materials`: Phong, Diffuse, Mirror and Emitter with their five queries. `Hit` is defined here.
- `Shapes`: the `Shape` datatype (sphere, disc, rectangle, background, frozen group) and `Intersect`.
- `SphereLabs`: the root-selection rules of the sphere in labs B and D.
- `Groups`: the mutable `Group` class, whose loop is proved equal to `Shapes.Intersect`.
- `Raytracing`: the recursive shader `getRadiance` and `getColor`.
- `Images`: the in-place `double[]` image buffer with `setPixel`, `sample` and `supersample`.
- `Discs`: `DiscModel` and the `ColoredDiscs` sampler.
- `Util`: `lib_cgtools.Util`.

Where the code and its comments disagree, the model follows the code:

- `Diffuse` redraws candidates of length below 1, so it keeps candidates of length at least 1, outside the unit ball.
- The shader hands the unnegated ray direction to the materials as `to_viewer`.
- `MirrorRepeatTexture` wraps with `u - floor(u)` and never mirrors.
- The lab E `pointAt` does not normalise the direction.

## Model

| member | source | states |
|---|---|---|
| Numerics.Min | src/main/java/H_beschleunigung/BoundingBox.java:28 | Math.min on non-NaN doubles: a lower bound of both arguments, equal to one of them |
| Numerics.Max | src/main/java/H_beschleunigung/BoundingBox.java:29 | Math.max on non-NaN doubles: an upper bound of both arguments, equal to one of them |
| Numerics.Abs | src/main/java/H_beschleunigung/RectXZ.java:54-55 | Math.abs is non-negative and is a or -a |
| Numerics.Div | src/main/java/H_beschleunigung/DiscXZ.java:59 | for a non-zero divisor the quotient times the divisor gives the dividend back |
| Randomness.Draw | src/main/java/A_bilderzeugung/Image.java:80-81 | one call of random() yields the stream's next value, and the stream left over yields every later value in the same order, one shorter |
| Randomness.Drop | src/main/java/H_beschleunigung/Diffuse.java:29-33 | after k draws the stream yields the values from the k-th on and is k shorter, down to empty |
| Randomness.DrawAfterDrop | src/main/java/A_bilderzeugung/Image.java:80-81 | drawing after k draws yields the k-th value and leaves the stream after k + 1 draws |
| Randomness.DropDrop | src/main/java/A_bilderzeugung/Image.java:80-81 | k draws followed by m draws are k + m draws |
| Randomness.AtUnit | src/main/java/A_bilderzeugung/Image.java:80-81 | every drawn value of a [0,1) stream lies in [0,1) |
| Linalg.NormalizeIsUnit | src/main/java/H_beschleunigung/Diffuse.java:45 | normalize of a non-zero vector has unit squared length |
| Linalg.ScaledUnitLength | src/main/java/C_szene_background_ebene/Ray.java:18-19 | t times a normalised non-zero vector has length t for t >= 0 |
| Linalg.NormalizeNeg | src/main/java/G_rekursiv_pathtracing/DirectionalLight.java:33 | normalize commutes with negation |
| Linalg.LengthPositive | src/main/java/H_beschleunigung/PointLight.java:40 | a non-zero vector has positive length |
| Rays.PointAtAffine | src/main/java/E_transformationen/Ray.java:13-15 | pointAt(s+t) = pointAt(s) + t*direction, pointAt(0) = origin, and pointAt(t) - origin = t*direction with no normalisation |
| Rays.ValidEndpoints | src/main/java/E_transformationen/Ray.java:21-23 | isValid is closed at both ends: tMin is valid iff the range is non-empty, and so is a finite tMax |
| Rays.EmptyRangeInvalid | src/main/java/E_transformationen/Ray.java:21-23 | with tMin > tMax no parameter is valid |
| Rays.GuardedPointAtDefined | src/main/java/C_szene_background_ebene/Ray.java:16-22 | the lab C pointAt returns a point iff t is in [tMin, tMax] and t >= 0, otherwise null |
| Rays.GuardedPointAtDistance | src/main/java/C_szene_background_ebene/Ray.java:16-22 | for valid t >= 0 and a non-zero direction, the point lies at distance exactly t from the origin |
| ExtendedReals.LeTotalOnNumbers | src/main/java/H_beschleunigung/BoundingBox.java:118 | the double comparison is total on non-NaN values |
| ExtendedReals.LeTransitive | src/main/java/H_beschleunigung/BoundingBox.java:118 | the double comparison is transitive |
| ExtendedReals.MinMaxBounds | src/main/java/H_beschleunigung/BoundingBox.java:103-104 | Math.min and Math.max on non-NaN doubles bound both arguments and return one of them |
| ExtendedReals.NaNPropagates | src/main/java/H_beschleunigung/BoundingBox.java:109-116 | Math.min and Math.max return NaN when either argument is NaN |
| Boxes.ExtendContainsBoth | src/main/java/H_beschleunigung/BoundingBox.java:27-30 | extend(bb) contains both boxes |
| Boxes.ExtendLeast | src/main/java/H_beschleunigung/BoundingBox.java:27-30 | a box contains extend(a, b) iff it contains a and b: extend is the least upper bound |
| Boxes.ExtendLaws | src/main/java/H_beschleunigung/BoundingBox.java:27-30 | extend is commutative, associative and idempotent |
| Boxes.EmptyIsIdentity | src/main/java/H_beschleunigung/BoundingBox.java:15-20 | empty (min = +MAX, max = -MAX) is a two-sided identity of extend for every box of finite doubles |
| Boxes.EverythingContains | src/main/java/H_beschleunigung/BoundingBox.java:14-20 | everything contains every box of finite doubles |
| Boxes.ExtendPointContains | src/main/java/H_beschleunigung/BoundingBox.java:32-35 | extend(p) contains p and the original box |
| Boxes.ContainsBoxOrder | src/main/java/H_beschleunigung/BoundingBox.java:78-81 | contains(BoundingBox) is reflexive and transitive |
| Boxes.ContainsPointMonotone | src/main/java/H_beschleunigung/BoundingBox.java:74-81 | a point in an inner box is in every box containing that box |
| Boxes.Corners | src/main/java/H_beschleunigung/BoundingBox.java:62-69 | transform visits exactly eight corners, in the code's order: corner k takes max.x iff k >= 4, max.y iff bit 1 of k is set, max.z iff k is odd, and min otherwise |
| Boxes.CornersSpan | src/main/java/H_beschleunigung/BoundingBox.java:60-71 | empty extended by the eight corners of an ordered box of finite doubles is that box again |
| Boxes.ExtendAllContains | src/main/java/H_beschleunigung/BoundingBox.java:60-71 | empty extended by points one after another contains each of those points |
| Boxes.ExtendAllLeast | src/main/java/H_beschleunigung/BoundingBox.java:60-71 | it is contained in every box that contains empty and those points |
| Boxes.TransformBoxCoversCorners | src/main/java/H_beschleunigung/BoundingBox.java:59-72 | transform(xform) contains the image of every corner of the box |
| Boxes.TransformBoxLeast | src/main/java/H_beschleunigung/BoundingBox.java:59-72 | transform(xform) is the least such box |
| Boxes.SplitAxisLongest | src/main/java/H_beschleunigung/BoundingBox.java:37-46 | the cut axis has the largest half-extent; y is chosen only when strictly larger than x, and z only when strictly larger than both |
| Boxes.SplitHalves | src/main/java/H_beschleunigung/BoundingBox.java:37-57 | splitLeft keeps min, splitRight keeps max, both meet at the midpoint of the cut axis, and the other axes are untouched |
| Boxes.SplitContained | src/main/java/H_beschleunigung/BoundingBox.java:37-57 | both halves of an ordered box are ordered and contained in it |
| Boxes.SplitCovers | src/main/java/H_beschleunigung/BoundingBox.java:37-57 | extending one half by the other gives back the original box |
| Boxes.CenterInside | src/main/java/H_beschleunigung/BoundingBox.java:125-127 | the center of an ordered box lies in it |
| Boxes.ScaleBoxGeometry | src/main/java/H_beschleunigung/BoundingBox.java:121-132 | scale keeps the center, multiplies size by the factor, and scale(1) is the identity |
| Boxes.ScaleBoxGrows | src/main/java/H_beschleunigung/BoundingBox.java:129-132 | a factor of at least 1 gives a box containing the original |
| BoxIntersection.IntersectFastAccepts | src/main/java/H_beschleunigung/BoundingBox.java:89-94 | a box containing pointAt(tMin), or pointAt(tMax) for finite tMax, is accepted, and so is everything |
| BoxIntersection.SlabAxisAgrees | src/main/java/H_beschleunigung/BoundingBox.java:96-104 | for a non-zero component, (lo - o) * (1/d) is the real quotient, and the slab is [min, max] of the two quotients |
| BoxIntersection.CombineFinite | src/main/java/H_beschleunigung/BoundingBox.java:103-118 | on finite values the fold accepts iff the largest entry is at most the smallest exit and is valid on the ray |
| BoxIntersection.IntersectAgrees | src/main/java/H_beschleunigung/BoundingBox.java:87-119 | without zero direction components the code's test and the corrected test agree on every box |
| BoxIntersection.IntersectSlabFormula | src/main/java/H_beschleunigung/BoundingBox.java:96-118 | without zero components and early accepts, intersect = (tmax >= tmin and isValid(tmin)) for the real per-axis entry maximum and exit minimum |
| BoxIntersection.AxisContains | src/main/java/H_beschleunigung/BoundingBox.java:100-104 | a parameter whose point lies in a slab lies between the slab's entry and exit |
| BoxIntersection.AxisConvex | src/main/java/H_beschleunigung/BoundingBox.java:100-104 | every parameter between a slab's entry and exit has its point in the slab |
| BoxIntersection.FixedAxisNotNaN | src/main/java/H_beschleunigung/BoundingBox.java:96-104 | the corrected slab bounds are never NaN |
| BoxIntersection.FoldBounds | src/main/java/H_beschleunigung/BoundingBox.java:109-116 | on NaN-free values the Math.max fold is the join and the Math.min fold the meet |
| BoxIntersection.IntersectFixedConservative | src/main/java/H_beschleunigung/BoundingBox.java:87-119 | the corrected test accepts every box that holds the point of some valid parameter |
| BoxIntersection.IntersectConservative | src/main/java/H_beschleunigung/BoundingBox.java:87-119 | with all direction components non-zero the code's own test never culls such a box |
| BoxIntersection.FacePlaneRayCulled | src/main/java/H_beschleunigung/BoundingBox.java:96-118 | a ray in the plane of a face, with a valid point in the box, is rejected by the code (NaN slab) and accepted by the corrected test |
| Samplers.FracRange | src/main/java/H_beschleunigung/MirrorRepeatTexture.java:27-28 | u - floor(u) lies in [0, 1) |
| Samplers.FracFixes | src/main/java/H_beschleunigung/MirrorRepeatTexture.java:27-28 | the wrap fixes exactly the values in [0, 1) and is idempotent |
| Samplers.FracShift | src/main/java/H_beschleunigung/MirrorRepeatTexture.java:27 | the wrap is 1-periodic |
| Samplers.MirrorRepeatPeriodic | src/main/java/H_beschleunigung/MirrorRepeatTexture.java:25-32 | getColor delegates at the wrapped coordinates and is 1-periodic in u and in v, with no mirroring |
| Samplers.MirrorRepeatInside | src/main/java/H_beschleunigung/MirrorRepeatTexture.java:25-32 | coordinates in [0, 1) are passed through unchanged |
| Samplers.JavaRem1Range | src/main/java/G_rekursiv_pathtracing/RepeatTexture.java:20-21 | u % 1 lies in [0, 1) for u >= 0 and in (-1, 0] for u < 0 |
| Samplers.JavaRem1Fixes | src/main/java/G_rekursiv_pathtracing/RepeatTexture.java:20-21 | u in [0, 1) passes through % 1 unchanged |
| Samplers.JavaRem1VersusFrac | src/main/java/G_rekursiv_pathtracing/RepeatTexture.java:20 | % 1 equals the floor wrap for u >= 0 and is one less for negative non-whole u |
| Samplers.RepeatDelegates | src/main/java/G_rekursiv_pathtracing/RepeatTexture.java:18-25 | RepeatTexture asks its content at (u % 1, v % 1), so unit-square coordinates pass through |
| Samplers.ClampOutside | src/main/java/H_beschleunigung/ClampTexture.java:15-17 | outside the closed unit square ClampTexture returns its fallback colour |
| Samplers.ClampInside | src/main/java/H_beschleunigung/ClampTexture.java:15-18 | inside the square, boundary included, it is the content's colour at the same point |
| Samplers.RectTextureChannels | src/main/java/F_texturen/RectTexture.java:26-35 | the gradient texture is red * u + green * v = (u, v, 0) |
| Util.IsZeroBand | src/main/java/lib_cgtools/Util.java:9-13 | isZero(a) iff -1e-3 < a < 1e-3 |
| Util.AreEqualSymmetric | src/main/java/lib_cgtools/Util.java:15-17 | areEqual is the tolerance test on a - b, symmetric and reflexive |
| Util.ShadeNull | src/main/java/lib_cgtools/Util.java:20-21 | shade(null, c) = c |
| Util.ShadeAtLeastAmbient | src/main/java/lib_cgtools/Util.java:23-26 | each channel of shade(n, c) is at least 0.1 times the channel of a non-negative c |
| Lights.DirectionalUniform | src/main/java/G_rekursiv_pathtracing/DirectionalLight.java:31-42 | a directional light gives normalize(-direction) and its colour at every point |
| Lights.PointLightFalloff | src/main/java/H_beschleunigung/PointLight.java:38-42 | a point light's incoming light times the squared distance is its colour (inverse-square falloff) |
| Lights.ShadowRayShape | src/main/java/G_rekursiv_pathtracing/DirectionalLight.java:68-74 | a shadow ray starts at p towards the source with tMin = 1e-6 and a finite tMax, which is Double.MAX_VALUE for a directional light (for a point light see ShadowRayEndsAtLight) |
| Lights.ShadowRayEndsAtLight | src/main/java/H_beschleunigung/PointLight.java:67-72 | a point light's shadow ray ends exactly at the light |
| Materials.CandidateInCube | src/main/java/H_beschleunigung/Diffuse.java:29-33 | with draws in [0, 1) each candidate component 2r - 1 lies in [-1, 1) |
| Materials.DiffuseSample | src/main/java/H_beschleunigung/Diffuse.java:26-46 | rejection sampling keeps only candidates of length >= 1, inside the cube for unit draws, and never lengthens the stream |
| Materials.ReflectionDirection | src/main/java/H_beschleunigung/Material.java:16-43 | Phong and Emitter return null without a draw; a mirror always returns a direction |
| Materials.PhongQueries | src/main/java/G_rekursiv_pathtracing/PhongMaterial.java:34-103 | Phong's ambient is kAmbient(u,v) * ambient light; emission and fraction are black; no reflection direction |
| Materials.EmitterQueries | src/main/java/G_rekursiv_pathtracing/Emitter.java:19-60 | an emitter emits its sampler's colour at (u, v), reflects no ray, and its fraction, ambient and direct terms are black |
| Materials.DiffuseQueries | src/main/java/H_beschleunigung/Diffuse.java:55-91 | Diffuse's fraction is albedo(u, v) and its emission emission(u, v), whatever the directions; ambient and direct are black |
| Materials.MirrorQueries | src/main/java/G_rekursiv_pathtracing/Mirror.java:44-64 | a mirror's fraction is its coefficient; emission, ambient and direct are black |
| Materials.DryCandidateAccepted | src/main/java/H_beschleunigung/Diffuse.java:38-40 | the candidate of a dry stream, (-1, -1, -1), has length >= 1 |
| Materials.DiffuseAlwaysReflects | src/main/java/H_beschleunigung/Diffuse.java:26-46 | the rejection recursion always ends with a direction |
| Materials.DiffuseDirectionFromCandidate | src/main/java/H_beschleunigung/Diffuse.java:45 | the direction is normalize(candidate + normal) for the accepted candidate, of length >= 1 |
| Materials.ReflectNormalComponent | src/main/java/G_rekursiv_pathtracing/Mirror.java:24 | reflecting about a unit normal negates the normal component |
| Materials.ReflectTwice | src/main/java/G_rekursiv_pathtracing/Mirror.java:24 | reflecting twice about a unit normal gives the vector back |
| Materials.ReflectKeepsLength | src/main/java/G_rekursiv_pathtracing/PhongMaterial.java:74 | reflection keeps the length |
| Materials.SpecularSignsCancel | src/main/java/G_rekursiv_pathtracing/PhongMaterial.java:74-76 | with the unnegated ray direction as to_viewer, R . V equals the textbook (2(L.n)n - L) . normalize(-d) |
| Materials.PhongLightBehind | src/main/java/G_rekursiv_pathtracing/PhongMaterial.java:61-67 | a light behind the surface gives a black diffuse term, because the cosine is max(0, N . L) |
| Materials.PhongDiffuseNonNegative | src/main/java/G_rekursiv_pathtracing/PhongMaterial.java:61-67 | the diffuse term of non-negative colours is non-negative |
| Materials.MirrorWithoutScatter | src/main/java/G_rekursiv_pathtracing/Mirror.java:24-40 | with scatterFactor <= 0 nothing is drawn, and the result is the normalised reflection, or the raw reflection when that points below |
| Materials.MirrorScatterDraws | src/main/java/G_rekursiv_pathtracing/Mirror.java:27-32 | with scatterFactor > 0 exactly three values are drawn |
| Materials.MirrorLeavesSurface | src/main/java/G_rekursiv_pathtracing/Mirror.java:34-40 | for a unit normal and a viewer from above, the returned direction never points below the surface |
| Shapes.MakeRect | src/main/java/H_beschleunigung/RectXZ.java:24-28 | the rectangle keeps half of each size |
| Shapes.SphereIntersect | src/main/java/H_beschleunigung/Sphere.java:47-98 | negative discriminant gives null; a hit at a positive discriminant is at min(t1, t2) >= 0 and valid; a hit at a zero discriminant is at -b/2a >= 0 |
| Shapes.DiscIntersect | src/main/java/H_beschleunigung/DiscXZ.java:54-86 | a disc hit is at t = (anchor.y - o.y)/d.y, valid, within the radius of the anchor, with normal (0,1,0) and the disc's material |
| Shapes.RectIntersect | src/main/java/H_beschleunigung/RectXZ.java:42-65 | |d.y| < 1e-3 gives null; a hit has a valid t, lies within the half sizes, and has normal (0,1,0) |
| Shapes.BackgroundIntersect | src/main/java/H_beschleunigung/Background.java:36-44 | a hit exists iff tMax is infinite; it is at t = +inf with normal -d, u = v = 0 and the background material |
| Shapes.LocalRay | src/main/java/H_beschleunigung/Group.java:76-80 | the local ray keeps the caller's tMin and tMax |
| Shapes.BackTransform | src/main/java/H_beschleunigung/Group.java:96-103 | the back-transformed hit keeps t, material, u and v |
| Shapes.NearRootSolves | src/main/java/H_beschleunigung/Sphere.java:57-59 | min(t1, t2) solves the sphere's quadratic |
| Shapes.TangentRootSolves | src/main/java/H_beschleunigung/Sphere.java:79-80 | -b/2a solves the quadratic at a zero discriminant |
| Shapes.SphereHitOnSurface | src/main/java/H_beschleunigung/Sphere.java:60-94 | every hit has t >= 0, point pointAt(t) on the sphere, normal (p - center)/radius and the sphere's material |
| Shapes.HitAtOnSurface | src/main/java/H_beschleunigung/Sphere.java:64-74 | the hit built at a root lies on the sphere |
| Shapes.SphereNormalUnit | src/main/java/H_beschleunigung/Sphere.java:65 | the normal of every hit has unit length for a non-zero radius |
| Shapes.SphereNearRootBehind | src/main/java/H_beschleunigung/Sphere.java:57-62 | a negative min(t1, t2) gives null even if the larger root is ahead |
| Shapes.SphereRangeChecked | src/main/java/H_beschleunigung/Sphere.java:63-75 | with a positive discriminant and min(t1, t2) >= 0, a hit exists iff that root is valid |
| Shapes.SphereTangentUnchecked | src/main/java/H_beschleunigung/Sphere.java:79-94 | a tangent ray hits iff -b/2a >= 0, with no isValid check |
| Shapes.SphereBoundsCover | src/main/java/H_beschleunigung/Sphere.java:31-33 | the sphere's box [center - r, center + r] holds every point of the ball |
| Shapes.PlanePoint | src/main/java/H_beschleunigung/DiscXZ.java:59-67 | the point at the plane parameter lies in the plane y = anchor.y |
| Shapes.DiscAcceptsRadius | src/main/java/H_beschleunigung/DiscXZ.java:70-75 | for a valid t the disc hits iff the distance to the anchor is at most the radius, rim included |
| Shapes.DiscHitFacts | src/main/java/H_beschleunigung/DiscXZ.java:33-82 | a disc hit lies in the disc's box, and u, v lie in [0, 1] |
| Shapes.RectHitFacts | src/main/java/H_beschleunigung/RectXZ.java:31-62 | a rectangle hit lies in the flat box at the anchor's height, and u, v lie in [0, 1] |
| Shapes.RectBoundsFlat | src/main/java/H_beschleunigung/RectXZ.java:31-33 | the rectangle's box has min.y = max.y = anchor.y and spans x_size by z_size |
| Shapes.BackgroundNeedsInfiniteRay | src/main/java/H_beschleunigung/Background.java:19-40 | the background misses exactly the rays with finite tMax, and its box is infinite |
| Shapes.BeforeOrder | src/main/java/H_beschleunigung/Group.java:90 | hit.t < closest.t is a strict total order on parameters including +inf |
| Shapes.WinnerUnique | src/main/java/H_beschleunigung/Group.java:88-93 | at most one child is the winner: the first with the smallest t |
| Shapes.NearestSpec | src/main/java/H_beschleunigung/Group.java:88-93 | the fold finds nothing iff no child hits, and otherwise the first child hit with minimal t |
| Shapes.GroupIntersectSpec | src/main/java/H_beschleunigung/Group.java:72-106 | a group misses iff its box rejects the local ray or no child hits; otherwise it returns the winning child's hit transformed back |
| Shapes.GroupKeepsBoxedHits | src/main/java/H_beschleunigung/Group.java:83-93 | a child hit at a valid parameter whose point is in the group's box is never culled |
| Shapes.GroupUnfold | src/main/java/H_beschleunigung/Group.java:72-106 | the group case of intersect: box test, fold over the children, back-transform |
| Shapes.PrimitiveHitInBounds | src/main/java/H_beschleunigung/Sphere.java:31-33 | a hit of a disc, a rectangle or a sphere met at two points has a valid t and lies in the shape's box |
| SphereLabs.SphereIntersectB | src/main/java/B_raytracing_start/Sphere.java:31-84 | negative discriminant gives null; at a positive discriminant a hit is at the chosen root, >= 0 and valid; at a zero discriminant it always hits at -b/2a |
| SphereLabs.SphereBSmallestAhead | src/main/java/B_raytracing_start/Sphere.java:54-63 | lab B uses the smaller root if it is non-negative and otherwise the larger: the smallest root not behind the origin |
| SphereLabs.SphereBBothBehind | src/main/java/B_raytracing_start/Sphere.java:57-62 | two negative roots give null |
| SphereLabs.SphereBInsideDiffers | src/main/java/B_raytracing_start/Sphere.java:57-58 | from inside the sphere lab B hits at the larger root where lab H reports no hit |
| SphereLabs.SphereBAgreesAhead | src/main/java/B_raytracing_start/Sphere.java:49-71 | with a non-negative smaller root, labs B and H agree on whether and where the ray hits |
| SphereLabs.SphereIntersectD | src/main/java/D_beleuchtung_schatten/Sphere.java:48-82 | negative discriminant gives null; every hit has t strictly inside (tMin, tMax), t >= 0, point pointAt(t), normalised normal and the sphere's material |
| SphereLabs.SphereDFirstIsNearer | src/main/java/D_beleuchtung_schatten/Sphere.java:65-66 | t1 = (-b - sqrtD)/2a is never beyond t2, so lab D prefers the nearer root |
| SphereLabs.SphereDHitsIff | src/main/java/D_beleuchtung_schatten/Sphere.java:69-75 | lab D hits iff t1 is strictly inside the range and >= 0, or t1 is not inside and t2 is strictly inside and >= 0 |
| SphereLabs.RootDSolves | src/main/java/D_beleuchtung_schatten/Sphere.java:64-66 | both of lab D's candidates solve the quadratic |
| SphereLabs.SphereDHitOnSurface | src/main/java/D_beleuchtung_schatten/Sphere.java:78-79 | a lab D hit lies on the sphere and has a unit normal for a non-zero radius |
| Groups.BoundsOfContains | src/main/java/H_beschleunigung/Group.java:34-37 | the box grown by the adds contains every child's box |
| Groups.BoundsOfLeast | src/main/java/H_beschleunigung/Group.java:28-37 | it is the least box containing empty and every child's box |
| Groups.Group.constructor | src/main/java/H_beschleunigung/Group.java:23-29 | a new group has no children, the given matrix and the empty box |
| Groups.Group.Add | src/main/java/H_beschleunigung/Group.java:34-37 | add appends the shape, grows the box by its bounds, and leaves the matrices alone |
| Groups.Group.SetTransformation | src/main/java/H_beschleunigung/Group.java:42-49 | matrix := n * matrix, with inverse and transposed inverse recomputed; children and box unchanged |
| Groups.Group.GroupBounds | src/main/java/H_beschleunigung/Group.java:61-64 | bounds() contains the box of every child |
| Groups.Group.Intersect | src/main/java/H_beschleunigung/Group.java:72-106 | the loop over the children returns exactly the shape-level group intersect |
| Groups.GroupKeepsPrimitiveHits | src/main/java/H_beschleunigung/Group.java:34-93 | a group built by add never culls a hit of a disc, a rectangle or a sphere met at two points |
| Raytracing.Radiance | src/main/java/H_beschleunigung/Raytracer.java:32-94 | getRadiance as a depth-bounded function over the random stream; it never lengthens the stream |
| Raytracing.HitRadiance | src/main/java/H_beschleunigung/Raytracer.java:48-93 | the colour at a hit: direct + ambient + emission, plus fraction * radiance of the reflected ray at depth - 1 |
| Raytracing.GetRadiance | src/main/java/H_beschleunigung/Raytracer.java:32-94 | the imperative getRadiance, with its loop over the lights, equals Radiance |
| Raytracing.GetColor | src/main/java/H_beschleunigung/Raytracer.java:26-29 | getColor is Radiance at depth 4 |
| Raytracing.BackgroundNeverOccludes | src/main/java/H_beschleunigung/PointLight.java:48-61 | no light is shadowed by the background, since every shadow ray has a finite far bound |
| Raytracing.DirectSumAllVisible | src/main/java/H_beschleunigung/Raytracer.java:54-65 | with every light visible, the direct light is the sum over all lights |
| Raytracing.DirectSumNoneVisible | src/main/java/H_beschleunigung/Raytracer.java:54-65 | with no light visible the direct light is black |
| Raytracing.BackgroundSceneUnshadowed | src/main/java/H_beschleunigung/Raytracer.java:54-65 | in a background-only scene the direct light sums all lights |
| Raytracing.RadianceDepthZero | src/main/java/H_beschleunigung/Raytracer.java:33-35 | depth 0 gives black and draws nothing |
| Raytracing.RadianceMiss | src/main/java/H_beschleunigung/Raytracer.java:40-45 | a ray that meets nothing gives bgColor |
| Raytracing.RadianceNoReflection | src/main/java/H_beschleunigung/Raytracer.java:72-77 | at a Phong or emitter hit there is no recursion: direct + ambient + emission, no draw |
| Raytracing.RadianceBlackFraction | src/main/java/H_beschleunigung/Raytracer.java:80-87 | a black reflection fraction stops the recursion: the result does not depend on the remaining depth |
| Raytracing.RadianceLastBounce | src/main/java/H_beschleunigung/Raytracer.java:84-93 | at depth 1 the reflected ray adds nothing |
| Raytracing.RadianceMirror | src/main/java/H_beschleunigung/Raytracer.java:72-93 | at a mirror hit the colour is the direct light plus coefficient * radiance of the mirrored ray at depth - 1 |
| Images.WritePixel | src/main/java/A_bilderzeugung/Image.java:30-35 | setPixel keeps the buffer length |
| Images.CellsInBuffer | src/main/java/A_bilderzeugung/Image.java:31 | for 0 <= i < width and 0 <= j < height the cells k..k+2 lie in the buffer |
| Images.CellsDisjoint | src/main/java/A_bilderzeugung/Image.java:31 | distinct pixels own disjoint cells |
| Images.WritePixelEffect | src/main/java/A_bilderzeugung/Image.java:30-35 | setPixel changes pixel (i, j) to c and leaves every other pixel as it was |
| Images.WritePixelEffects | src/main/java/A_bilderzeugung/Image.java:30-35 | the same for all pixels at once |
| Images.Image.constructor | src/main/java/A_bilderzeugung/Image.java:17-21 | width * height * 3 fresh cells, all zero, and the given dimensions (the getters) |
| Images.Image.SetPixel | src/main/java/A_bilderzeugung/Image.java:30-35 | the buffer after setPixel is WritePixel of the buffer before |
| Images.Image.SetPixelKeeping | src/main/java/A_bilderzeugung/Image.java:30-35 | setPixel inside the image: pixel (i, j) becomes c, every other pixel keeps its colour |
| Images.Image.Sample | src/main/java/A_bilderzeugung/Image.java:55-61 | after sample every pixel (i, j) holds the sampler's colour at (i, j), called with the stream left by the pixels before it in column-by-column order, and the stream after the last pixel is returned |
| Images.SampleDraws | src/main/java/A_bilderzeugung/Image.java:55-61 | for a sampler making d draws per call, pixel (i, j) starts at draw d * (i * height + j) |
| Images.SampledWithoutDraws | src/main/java/A_bilderzeugung/Image.java:55-61 | for a sampler that draws nothing, every pixel (i, j) holds sampler(i, j) on the initial stream |
| Images.Image.Supersample | src/main/java/A_bilderzeugung/Image.java:71-98 | after supersample every pixel holds the mean of its n*n sub-samples; the jitter draws and the sampler's own draws share one stream, consumed in the code's order, and the stream after the last pixel is returned |
| Images.SupersampleDraws | src/main/java/A_bilderzeugung/Image.java:71-98 | for a sampler making d draws per call, pixel (i, j) starts at draw (2 + d) * n * n * (i * height + j) |
| Images.SubSampleJitter | src/main/java/A_bilderzeugung/Image.java:78-87 | sub-sample (ii, jj) of pixel (i, j) is jittered by the two draws at FirstDraw + (2 + d) * (ii * n + jj), x first |
| Images.SubSampleDraws | src/main/java/A_bilderzeugung/Image.java:80-82 | one sub-sample takes two jitter draws, x then y, and then the sampler's d draws |
| Images.SubSumDraws | src/main/java/A_bilderzeugung/Image.java:78-89 | the sub-samples before (ii, jj) use (2 + d) * (ii * n + jj) draws |
| Images.Image.AverageOf | src/main/java/A_bilderzeugung/Image.java:75-96 | the two inner loops compute the sum of the n*n sub-samples divided by n*n and leave the stream after their draws |
| Images.SubSampleInCell | src/main/java/A_bilderzeugung/Image.java:80-81 | a sub-sample coordinate lies in [i + ii/n, i + (ii+1)/n), inside the pixel, for a draw in [0, 1) |
| Images.ConstantSubSum | src/main/java/A_bilderzeugung/Image.java:78-89 | the sum of k sub-samples of a constant sampler is k times the constant |
| Images.ConstantSupersampled | src/main/java/A_bilderzeugung/Image.java:71-98 | supersampling a constant sampler gives that constant at every pixel |
| Discs.SquaredDistance | src/main/java/A_bilderzeugung/DiscModel.java:44 | the squared distance from the centre is non-negative |
| Discs.CoversIffSquared | src/main/java/A_bilderzeugung/DiscModel.java:43-46 | for radius >= 0, coversPoint iff squared distance <= radius^2 |
| Discs.NegativeRadiusCoversNothing | src/main/java/A_bilderzeugung/DiscModel.java:43-46 | a disc with negative radius covers no point |
| Discs.BoundaryCovered | src/main/java/A_bilderzeugung/DiscModel.java:45 | a point at distance exactly the radius is covered |
| Discs.RimPointCovered | src/main/java/A_bilderzeugung/DiscModel.java:45 | the point radius to the right of the centre is covered |
| Discs.CentreCovered | src/main/java/A_bilderzeugung/DiscModel.java:43-46 | the centre is covered iff radius >= 0 |
| Discs.GeneratedLength | src/main/java/A_bilderzeugung/ColoredDiscs.java:31-37 | the loop makes count discs, and disc k is built from draws 6k .. 6k + 5 |
| Discs.MakeDiscInRange | src/main/java/A_bilderzeugung/ColoredDiscs.java:32-36 | with draws in [0, 1), the centre lies in the image and the radius in [0, min(width, height)/2) |
| Discs.GeneratedInRange | src/main/java/A_bilderzeugung/ColoredDiscs.java:31-37 | the constructor makes numbdiscs discs (none for a negative count), every radius in range |
| Discs.InsertPermutes | src/main/java/A_bilderzeugung/ColoredDiscs.java:39 | insertion adds exactly the new disc |
| Discs.InsertSorted | src/main/java/A_bilderzeugung/ColoredDiscs.java:39 | insertion into a radius-sorted list keeps it sorted |
| Discs.SortSorted | src/main/java/A_bilderzeugung/ColoredDiscs.java:39 | after the sort the radii are non-decreasing |
| Discs.SortPermutes | src/main/java/A_bilderzeugung/ColoredDiscs.java:39 | the sort is a permutation |
| Discs.InsertStable | src/main/java/A_bilderzeugung/ColoredDiscs.java:39 | insertion puts the new disc before the old discs of equal radius but keeps their order among themselves |
| Discs.SortStable | src/main/java/A_bilderzeugung/ColoredDiscs.java:39 | the sort is stable: discs of equal radius keep their relative order, as List.sort promises |
| Discs.FirstCovering | src/main/java/A_bilderzeugung/ColoredDiscs.java:52-56 | the search finds nothing iff no disc covers the point; otherwise it finds a covering disc with no covering disc before it |
| Discs.PaintBackground | src/main/java/A_bilderzeugung/ColoredDiscs.java:58 | no covering disc gives bgcolor |
| Discs.FirstIsSmallest | src/main/java/A_bilderzeugung/ColoredDiscs.java:39-56 | in a radius-sorted list the first covering disc has the smallest radius among covering discs |
| Discs.ColoredDiscs.constructor | src/main/java/A_bilderzeugung/ColoredDiscs.java:26-40 | the discs are the numbdiscs generated discs, sorted by radius |
| Discs.ColoredDiscs.GetColor | src/main/java/A_bilderzeugung/ColoredDiscs.java:49-59 | the scanning loop returns the colour of the first covering disc, or bgcolor |
| Discs.ColoredDiscsPaint | src/main/java/A_bilderzeugung/ColoredDiscs.java:26-59 | a constructed sampler paints bgcolor where no generated disc covers the point, and otherwise the colour of a covering disc of least radius |

## Left out

- IEEE-754 doubles: the model computes in exact reals. Rounding, overflow to infinity and NaN are not modelled, except in the slab test of `BoundingBox.intersect`, which `ExtendedReals` evaluates with infinities and NaN.
- Division by zero: `Numerics.Div` returns 0 for a zero divisor where Java gives an infinity or NaN. Every property about a quotient requires a non-zero divisor.
- Shapes.SphereIntersect: a zero ray direction gives no hit. Java divides by 2a = 0 there and returns a NaN hit.
- SphereLabs.SphereIntersectB: the same for a zero direction. The zero-discriminant branch needs a != 0 before it states its hit exactly.
- SphereLabs.SphereIntersectD: the same for a zero direction, where every Java candidate is NaN or infinite.
- Shapes.DiscIntersect: a ray with direction.y = 0 gives no hit, through an explicit guard. Java divides by zero there. With the origin in the plane t is NaN and `isValid` fails. An infinite t fails `isValid` when it is -inf or tMax is finite. With t = +inf and tMax = +inf, `pointAt` has a NaN y, so `length > radius` is false and Java returns a hit at t = +inf with NaN coordinates; the model does not.
- Background hits are at t = +infinity, and `pointAt(+inf)` is not a real point. The model stores the ray direction as a nominal hit point.
- Sphere UV: `acos` and `atan2` are `Lib` functions. The model states no range facts for the sphere's u and v.
- Phong: its specular `Math.pow` with a real exponent is a `Lib` function.
- Matrices: `Matrix.multiply`, `invert`, `transpose` and the point and direction transforms are `Lib` functions. The model assumes nothing about whether the inverse is an inverse.
- Groups.Group: a sub-group changed after it was added is not modelled. The model's children are values, so Java's aliasing and stale cached boxes do not occur. The group's own box is not transformed, as in the code.
- Groups.Group.Intersect: the box test uses the corrected slab test (see Findings), not the code's. So do the group case of Shapes.Intersect and every member built on it: Shapes.GroupIntersectSpec, Shapes.GroupKeepsBoxedHits, Shapes.GroupUnfold, Groups.GroupKeepsPrimitiveHits, Raytracing.Radiance, Raytracing.HitRadiance, Raytracing.GetRadiance, Raytracing.GetColor and Raytracing.IsVisible. For a ray in the plane of a box face these accept hits that the code culls.
- `H_beschleunigung/Ray.java`, and the Ray and Hit classes of labs B and D, are not part of this model. The model uses the lab E ray (affine `pointAt`, closed `isValid`) for them.
- `lib_cgtools.Color`'s `red` and `green` constants are not part of this model. They are taken as (1,0,0) and (0,1,0).
- The shader compares `reflectFraction` with black by exact `Color` record equality. Java's record `equals` tells -0.0 from 0.0, which reals cannot.
- `lib_cgtools.Random` is an explicit stream. A dry stream yields 0. Samplers take the stream and return what they leave of it, so the ray tracer is a sampler through Raytracing.Radiance once a camera maps (x, y) to a ray; cameras are not modelled.
- Materials.DiffuseSample: it recurses on a shorter stream, redrawing while draws remain. A dry stream's candidate (-1,-1,-1) has length sqrt(3) and is accepted. Java's rejection recursion has no bound.
- Images.Image: dimensions are `nat`. Java's `int` overflow in `width * height * 3`, and a negative image size, are not modelled.
- Images.Image.SetPixel: the requires is that the three cells at 3*(j*width + i) exist. That is exactly when Java's array access does not throw.
- Images.Image.Supersample: requires n >= 1. For n = 0 the Java code divides zero by zero and gives NaN pixels, and for negative n its loop `ii != number` does not end.
- Images.PixelAt: a pixel whose cells are missing reads as black, to keep the function total.
- `Image.write` and `Image.writeGamma` only hand the buffer to the image writer. File I/O is not modelled.
- Discs.ColoredDiscs: disc generation draws six values per disc from the stream, in the code's order. `List.sort` is modelled by a stable insertion sort, with stability proved.
- Cameras, `Transform` samplers, `ImageTexture`, `ImageWriter`, the `Main` scene scripts, `Limb`, `Human` and `Cube` are left out. They are scene construction, file I/O or thin wrappers over the matrix library.
- Instrumentation is not modelled: `BoundingBox.count_intersections`, `Util.start` and `Util.finish`.
- Earlier-lab copies identical to a modelled version are not modelled again: Groups, discs, rectangles, backgrounds, lights, Phong materials and raytracers of labs C to G. Lab C's `Ray` is modelled because its `pointAt` differs.
- `ColoredSpheres` of lab B is left out. Its nearest-hit loop is the group fold, and its constructor is random scene generation.
- `Direction.equals` with a tolerance is left out. No property needs it.

## Findings

| source | as written | input that shows it | evidently intended | confidence | as-written member | corrected member |
|---|---|---|---|---|---|---|
| src/main/java/H_beschleunigung/BoundingBox.java:96-118 | a zero direction component makes `(min - o) * (1/0)` equal `0 * inf = NaN` when the origin lies on the face plane. NaN then poisons `Math.min`/`Math.max`, and the box is rejected | box [0,1]^3, ray from (-1, 0.5, 0) along (1, 0, 0), tMin 1e-6, tMax +inf: pointAt(1.5) is inside the box, but `intersect` returns false | a ray with a valid point inside the box is never culled | not executed | BoxIntersection.FacePlaneRayCulled (over BoxIntersection.Intersect) | BoxIntersection.IntersectFixedConservative (over BoxIntersection.IntersectFixed) |
