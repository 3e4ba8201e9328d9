# A model of the in-one-weekend path tracer core

This project models the geometric and shading core of a small Monte-Carlo
path tracer. The tracer renders a scene of spheres, half-space planes,
finite rectangles, fog volumes and constructive-solid-geometry (CSG)
combinations. Each pixel's ray is traced to its closest hit. The hit
material decides the colour: it traces one further ray (a diffuse bounce,
a mirror reflection, a portal jump or a mapper ray) and combines that ray's
colour with its albedo. A progressive buffer averages the frames rendered
so far.

Arithmetic is over exact `real`s and stands in for `f64`. The square root
is a parameter `sqrt`. Lemmas that need it require `Vectors.ExactSqrt(sqrt)`:
`sqrt(x)` is non-negative and squares back to `x`. The rigid transform
`Pos` is a datatype of four opaque maps. Random draws come in as
parameters: a tape of random unit vectors `random: nat -> Vec3`, read at a
cursor `k`, and the draws `u`, `v`, `rv` of a fog volume. The `1e-10`
offsets are kept exactly as the constant `Rays.Nudge`.

Modules, one per source file:

- `Colors` (`math/color.rs`):
  - colour arithmetic, `splat`, `lerp` and `luminance`;
  - the class `ColorCell` for the in-place operators `+=`, `-=`, `*=`, `/=` and `lerp_mut`.
- `Vectors`: the three-vector operations the rest needs.
- `Rays` (`math/ray.rs`): points on a ray, sub-rays, the parameter of a point, and reflection.
- `Hits` (`math/hit.rs`): the hit record and its helpers.
- `Materials`: the six materials and their constructors.
- `Shading`: `get_color` and each material's `color` rule.
- `Surfaces`: `Hittable`, a pair of closures `trace` and `inside`.
- `Scene` (`scene.rs`): `TestScene` and `Couple`.
- `Csg` (`shape/csg.rs`): `Union` and `Subtract`, each with its loop as a method proved equal to a fuelled function.
- `Spheres`, `Planes` and `Volumes` (`shape/`).
- `Progressive` (`progressive.rs`): the accumulation buffer as a class over an array. It keeps a ghost history of the frames it has seen.
- `Pattern` (`lib.rs`): the gradient test image, built by nested loops.
- `SphereExample` and `UnionExample`: concrete inputs for the findings below.

## Model

| member | source | states |
|---|---|---|
| Colors.AddSubInverse | src/math/color.rs:11-29 | colour `+` and `-` act componentwise and undo each other |
| Colors.MulDivInverse | src/math/color.rs:43-61 | componentwise `/` by a colour with no zero component undoes `*` |
| Colors.ScaleDivInverse | src/math/color.rs:75-93 | scaling by `s` and then dividing by `s != 0` returns the original colour |
| Colors.LerpEnds | src/math/color.rs:168-170 | `lerp(a, c, 0) == a`, `lerp(a, c, 1) == c`, and `lerp(a, a, t) == a` |
| Colors.LuminanceOfSplat | src/math/color.rs:190-192 | the BT.709 weights sum to 1, so `luminance(splat(n)) == n` |
| Colors.LuminanceInUnit | src/math/color.rs:190-192 | a colour with components in [0, 1] has luminance in [0, 1] |
| Colors.ColorCell.constructor | src/math/color.rs:6 | a new cell holds the given colour |
| Colors.ColorCell.AddAssign | src/math/color.rs:17-21 | after `+=` the cell holds the sum of its old colour and the operand |
| Colors.ColorCell.SubAssign | src/math/color.rs:33-37 | after `-=` the cell holds the difference |
| Colors.ColorCell.MulAssign | src/math/color.rs:49-53 | after `*=` the cell holds the componentwise product |
| Colors.ColorCell.DivAssign | src/math/color.rs:65-69 | after `/=` by a colour with no zero component the cell holds the componentwise quotient |
| Colors.ColorCell.ScaleAssign | src/math/color.rs:81-85 | after `*= s` the cell holds the old colour scaled by `s` |
| Colors.ColorCell.DivScalarAssign | src/math/color.rs:97-101 | after `/= s` with `s != 0` the cell holds the old colour divided by `s` |
| Colors.ColorCell.LerpMut | src/math/color.rs:172-178 | after `lerp_mut(c, t)` the cell holds `lerp(old, c, t)` |
| Vectors.LerpEnds | src/progressive.rs:30 | vector `lerp` starts at `a`, ends at `b`, and leaves equal vectors in place |
| Rays.AtZero | src/math/ray.rs:45-47 | the point at parameter 0 is the origin |
| Rays.FromZero | src/math/ray.rs:50-52 | the sub-ray from parameter 0 is the ray itself |
| Rays.FromAt | src/math/ray.rs:50-52 | the sub-ray from `t` traces the same line: its point at `s` is the ray's point at `t + s(1 - t)` |
| Rays.FromFrom | src/math/ray.rs:50-52 | a sub-ray of a sub-ray is the sub-ray from the composed parameter |
| Rays.TForAt | src/math/ray.rs:54-57 | for a non-zero direction, `t_for` inverts `at`: `t_for(at(t)) == t` |
| Rays.MirrorDirNormal | src/math/ray.rs:63 | off a unit normal, the adjusted direction's normal component is the absolute value of the old one |
| Rays.MirrorDirLength | src/math/ray.rs:63 | off a unit normal, the adjusted direction keeps its length |
| Rays.MirrorDirAligned | src/math/ray.rs:63 | a direction not moving against the normal is left unchanged |
| Rays.ReflectFacesNormal | src/math/ray.rs:60-65 | off a unit normal, the reflected direction satisfies `d' . n >= 0` |
| Rays.ReflectStart | src/math/ray.rs:60-65 | the reflected ray starts `Nudge` along the new direction past the hit, and its squared length is the rest of the ray's times `(1 - Nudge)^2` |
| Hits.NormalAbs | src/math/hit.rs:31-37 | the facing normal satisfies `dir . n <= 0`; it is the negated normal on a back face and the normal otherwise |
| Hits.Closer | src/math/hit.rs:43-49 | returns one of the two hits, with the smaller `t`, and `self` on a tie |
| Hits.Farther | src/math/hit.rs:51-57 | returns one of the two hits, with the larger `t`, and `self` on a tie |
| Hits.FlipInvolution | src/math/hit.rs:68-70 | `flip` is an involution; it keeps ray, `t` and point, and turns a front face (`dir . n < 0`) into a back face |
| Hits.MapOntoSuperOfFrom | src/math/hit.rs:59-66 | a hit on `ray.from(s)` remapped onto `ray` keeps its point, normal and material, and gets `t = s + t'(1 - s)` |
| Hits.MapOntoSuperSelf | src/math/hit.rs:59-62 | remapping a hit onto its own (non-degenerate) ray changes nothing |
| Scene.ClosestHitNone | src/scene.rs:19-37 | the scan finds no hit iff no object reports one |
| Scene.ClosestHitFirst | src/scene.rs:27-33 | a found hit is some object's hit with the minimum `t`, and every earlier object hits strictly further or not at all (ties keep the earlier object) |
| Scene.TraceScene | src/scene.rs:19-38 | the loop over the objects returns exactly the scan's closest hit, given the asserted `0 <= t < 1` of every hit |
| Scene.WithinRayObjects | src/scene.rs:24-25 | objects whose hits all lie in [0, 1) meet the scan's assertions on every ray |
| Scene.SceneIsInside | src/scene.rs:40-48 | the early-return loop answers true iff some object contains the point |
| Scene.AnyInside | src/scene.rs:40-48 | containment in a scene is containment in some object; an empty scene contains nothing |
| Scene.SceneShape | src/scene.rs:18-48 | the scene as a shape traces with the closest-hit scan and contains with the any-object test |
| Scene.CoupleTraceTagged | src/scene.rs:61-72 | both hit: the closer hit, tagged `h2.t >= h1.t`; only the first: tag false; only the second: tag true; neither: None |
| Scene.CoupleTrace | src/scene.rs:74-76 | the couple's hit is the closest-hit scan over the two shapes, None iff neither hits, and otherwise one of their hits |
| Scene.CoupleInside | src/scene.rs:78-80 | the couple contains a point iff either shape does |
| Csg.UnionInside | src/shape/csg.rs:32-34 | union containment is `s1 \|\| s2` |
| Csg.UnionLoop | src/shape/csg.rs:24-27 | the loop returns its hit at once when `portion` starts outside both shapes; any hit it returns was held when the origin was outside both, or ends outside both |
| Csg.UnionTraceAsWritten | src/shape/csg.rs:18-30 | no hit when neither shape is hit; exactly the couple's hit when the origin is outside both; otherwise a hit whose continuation starts outside both |
| Csg.UnionRayTrace | src/shape/csg.rs:18-30 | the `while` loop reassigning `hit` and `portion` computes the union trace as written |
| Csg.UnionLoopSubRay | src/shape/csg.rs:24-27 | every hit the loop holds lies on a sub-ray `ray.from(s)` of the caller's ray |
| Csg.UnionAsWrittenSubRay | src/shape/csg.rs:21-29 | the hit the union returns lies on some sub-ray of the caller's ray |
| Csg.UnionTrace | src/shape/csg.rs:18-30 | the union with its hit remapped onto the caller's ray: a hit exactly when the as-written trace has one, and on the caller's ray |
| Csg.UnionTraceSamePoint | src/shape/csg.rs:25-29 | the remapped hit is the same point, normal and material as the loop's hit, and its `t` locates that point on the caller's ray |
| Csg.UnionOutside | src/shape/csg.rs:21-29 | from an origin outside both shapes the union is exactly the couple |
| Csg.UnionShape | src/shape/csg.rs:118-120 | `CSG::union` keeps hits on the caller's ray, contains `s1 \|\| s2`, and traces with the union |
| Csg.UnionShapeAsWritten | src/shape/csg.rs:129-136 | the as-written union shape contains `s1 \|\| s2` and traces with the as-written union |
| Csg.SubtractInside | src/shape/csg.rs:109-111 | subtract containment is `s1 && !s2` |
| Csg.SubtractSkip | src/shape/csg.rs:46-53 | after the skip loop, `o1` is None or its point is not inside `s2`; a first hit outside `s2` is kept unchanged |
| Csg.SubtractSkipSubRay | src/shape/csg.rs:46-53 | both hits the skip loop ends with lie on one sub-ray of the caller's ray |
| Csg.SubtractDecide | src/shape/csg.rs:74-106 | the decision table: a back face of the cut inside the shape gives the flipped cut hit; a front face of the cut at or after the shape's hit gives `o1`; the remaining orderings and faces give `o1`, None or the flipped cut as written, and the re-trace branch is filtered by containment in `s1` |
| Csg.SubtractTrace | src/shape/csg.rs:41-107 | no surviving shape hit gives None; no cut hit gives the shape's hit remapped; otherwise the decision table over both remapped hits; any hit is on the caller's ray |
| Csg.SubtractRayTrace | src/shape/csg.rs:41-107 | the `while let` loop reassigning `o1` and `o2`, then the table, computes the subtract trace |
| Csg.SubtractRetraceUnreachable | src/shape/csg.rs:87-90 | the re-trace branch is never taken: the surviving shape hit, remapped, is not inside the cut |
| Csg.SubtractShape | src/shape/csg.rs:123-126 | `CSG::subtract` keeps hits on the caller's ray, contains `s1 && !s2`, and traces with the subtract |
| Spheres.SphereTrace | src/shape/sphere.rs:15-51 | the intersection with `t` bounded by the end of the ray: a hit has `0 <= t < 1`, the caller's ray and the sphere's material |
| Spheres.SphereShape | src/shape/sphere.rs:14-55 | the sphere keeps hits on the caller's ray and within [0, 1) |
| Spheres.EarlyReject | src/shape/sphere.rs:21-23 | an origin strictly outside with `dir . (pos - center) >= 0` gives no hit, as written and corrected |
| Spheres.TraceAgreement | src/shape/sphere.rs:41-42 | the as-written test keeps hits with `t >= 0` and `t^2 <= length_squared`; it agrees with the corrected one on rays of length at least 1, except for `t` in [1, length] |
| Spheres.RootsOf | src/shape/sphere.rs:21-37 | when the origin is not outside and moving away, there are roots exactly when `a != 0` and the discriminant is non-negative; then `closest_t <= furthest_t`, both solve `a t^2 + 2 half_b t + c = 0`, and every solution is one of them; without roots, a line of non-zero direction has no solution |
| Spheres.RootSolves | src/shape/sphere.rs:34-39 | the chosen root solves the quadratic |
| Spheres.RootOnSphere | src/shape/sphere.rs:36-39 | the point at the chosen root lies on the sphere |
| Spheres.SolutionOnSphere | src/shape/sphere.rs:25-28 | any solution of `a t^2 + 2 half_b t + c = 0` is a point at distance `radius` from the centre |
| Spheres.OffSphere | src/shape/sphere.rs:25-28 | conversely, a parameter that does not solve the quadratic is a point off the sphere |
| Spheres.QuadraticRoot | src/shape/sphere.rs:28-37 | both quadratic-formula roots solve the quadratic |
| Spheres.UnitNormal | src/shape/sphere.rs:47 | a point on the sphere divided by the radius has unit length |
| Spheres.HitOnSurface | src/shape/sphere.rs:25-47 | a hit's point lies on the sphere; its normal is `(at(t) - center) / radius`, has unit length, and its dot product with `at(t) - center` is the radius, so it points outward for a positive radius |
| Spheres.SphereHitChoice | src/shape/sphere.rs:36-47 | a hit is at `closest_t` when that is not negative and at `furthest_t` otherwise, and its normal is `(at(t) - center) / radius` |
| Spheres.HitNearest | src/shape/sphere.rs:36-41 | no point of the ray with a parameter in [0, t) lies on the sphere: the hit is the first one at or after the origin |
| SphereExample.FarSphereRoots | src/shape/sphere.rs:25-37 | the far sphere meets the short ray's line at `t = 4.9` and `t = 5.1` |
| SphereExample.AsWrittenHitsBeyondRay | src/shape/sphere.rs:41 | as written the far sphere is hit at `t = 4.9`, beyond the ray's end; the corrected test misses it |
| Planes.IntersectExact | src/shape/plane.rs:15-24 | `intersect` returns the crossing parameter exactly when it lies in [0, 1), and None otherwise |
| Planes.IntersectWithinRay | src/shape/plane.rs:19-23 | any parameter `intersect` returns lies in [0, 1) |
| Planes.IntersectOnPlane | src/shape/plane.rs:15-24 | the point at the returned parameter lies on the plane |
| Planes.PlaneTrace | src/shape/plane.rs:28-35 | a plane hit exists iff `intersect` succeeds, and carries the ray, that `t`, the plane's own normal and its material |
| Planes.PlaneShape | src/shape/plane.rs:27-40 | the plane keeps hits on the caller's ray and contains exactly the points strictly behind its normal |
| Planes.PlaneShapeWithinRay | src/shape/plane.rs:28-35 | plane hits lie within [0, 1) |
| Planes.FinitePlaneTrace | src/shape/plane.rs:50-71 | a hit is the plane hit with normal `rotation * (0, 1, 0)` whose local point has `2\|x\| <= size.0` and `2\|z\| <= size.1` (edges accepted); a plane hit outside those extents is rejected; a hit carries the plane's material |
| Planes.FinitePlaneShape | src/shape/plane.rs:49-76 | the finite plane keeps hits on the caller's ray |
| Planes.FinitePlaneShapeWithinRay | src/shape/plane.rs:50-71 | finite-plane hits lie within [0, 1) |
| Volumes.VolumeTrace | src/shape/volume.rs:13-43 | no boundary hit gives None; a hit is on the caller's ray with the boundary's material, and its normal is `rv` or `-rv`, turned so that `normal . dir <= 0` |
| Volumes.VolumeHitInSegment | src/shape/volume.rs:32 | for a draw `v` in [0, 1), a hit lies in the non-empty segment `[start_t, end_t)` |
| Volumes.VolumeHitIff | src/shape/volume.rs:28-31 | with non-zero density, a hit occurs iff `u < (end_t - start_t) / (density / length)` |
| Volumes.SegmentFromInside | src/shape/volume.rs:18-20 | from an origin inside the boundary the segment is `[0, hit.t]` |
| Volumes.SegmentFromOutside | src/shape/volume.rs:21-24 | from an origin outside, the segment ends at the exit found from just past the entry, remapped onto the ray (its point is the exit's point) |
| Volumes.VolumeShape | src/shape/volume.rs:45-47 | the volume keeps hits on the caller's ray and its containment is the boundary's |
| Materials.LambertianSolid | src/material/lambertian.rs:16-18 | `Lambertian::solid(c)` is a Lambertian with albedo `c` |
| Materials.MetalColored | src/material/metal.rs:17-19 | `colored(c, r)` is a metal with albedo `c` and roughness `r` |
| Materials.MetalNew | src/material/metal.rs:13-15 | `new(r)` is a white metal with roughness `r` |
| Materials.Brightness | src/material/emissive.rs:14 | the factor is at least 1 and every component, and equals 1 or one of them |
| Materials.EmissiveSolid | src/material/emissive.rs:13-16 | `Emissive::solid` builds an emissive material whose intensity is `max(r, g, b, 1)` and whose albedo is the colour divided by that intensity |
| Materials.EmissiveSolidSplit | src/material/emissive.rs:14-15 | the intensity is at least 1 and albedo times intensity gives back the colour |
| Materials.EmissiveSolidAlbedoInUnit | src/material/emissive.rs:15 | for a non-negative colour, the stored albedo lies in [0, 1] |
| Materials.EmissiveSolidDim | src/material/emissive.rs:14-15 | a colour with components at most 1 is stored as is, with intensity 1 |
| Materials.MaterialAlbedo | src/material/portal.rs:12-16 | portal and mapper albedos are white; the others are their solid colour |
| Shading.GetColor | src/math/hit.rs:16-25 | black when no reflections are left or nothing is hit |
| Shading.DarkScene | src/math/hit.rs:16-25 | in a scene with no emissive surface, every path is black |
| Shading.DarkMaterial | src/material/mod.rs:15-17 | without lights every non-emissive material's colour is black, whatever the bounce budget |
| Shading.RadianceBounded | src/math/hit.rs:16-25 | with albedos in [0, 1] and lights no brighter than `l`, a path with `n` reflections gathers a colour in [0, n l] |
| Shading.MaterialRadiance | src/material/mod.rs:15-17 | every material's colour with `n` reflections lies in [0, n l]: albedos only attenuate, and emission adds at most `l` |
| Shading.LambertianRadiance | src/material/lambertian.rs:35-47 | the diffuse bounce with `n` reflections gathers at most `(n - 1) l`, one reflection being spent |
| Shading.EmissiveLastBounce | src/material/emissive.rs:26-28 | with one reflection left a light shows exactly albedo times intensity, the bounce term being black |
| Shading.PortalBudget | src/material/portal.rs:22-26 | a back face of a portal spends no reflection, so a light behind it still shows with one reflection left; through a front face it is black |
| Shading.LambertianBounceSide | src/material/lambertian.rs:37-39 | the bounce origin lies on the side the ray came from |
| Shading.LambertianBounceLength | src/material/lambertian.rs:36-40 | when `normal + rv` is non-zero, the bounce ray is as long as the rest of the incoming ray, `length * (1 - t)` |
| Shading.RemainingNonNegative | src/material/lambertian.rs:36 | the remaining length is non-negative for `t <= 1` |
| Shading.TowardLength | src/material/lambertian.rs:40 | a normalised non-zero direction scaled by `len >= 0` has length `len` |
| Shading.MetalSmooth | src/material/metal.rs:32-33 | with roughness 0 a unit normal is kept unchanged |
| Shading.MetalNormalUnit | src/material/metal.rs:32-33 | the perturbed normal has unit length unless the perturbation cancels it |
| Shading.PortalCutStart | src/material/portal.rs:20 | the continuation starts at `t + Nudge` on the hit ray and ends where the hit ray ends |
| Shading.MapperRayLength | src/material/mapper.rs:20 | off a unit normal, the mapper's ray is as long as the hit's reflected ray |
| Progressive.Merged | src/progressive.rs:25-31 | merging a frame never changes the buffer's length |
| Progressive.MergedAt | src/progressive.rs:25-31 | each merged entry is the old entry lerped toward the frame's entry, in all three components |
| Progressive.MergedWeightOne | src/progressive.rs:23-31 | a merge with weight 1 replaces the buffer by the frame |
| Progressive.Fresh | src/progressive.rs:13 | a fresh buffer of length `n` holds `n` zero entries |
| Progressive.Accumulated | src/progressive.rs:18-32 | the buffer after a history of frames keeps its length |
| Progressive.AccumulatedNext | src/progressive.rs:22-31 | one more frame merges into the accumulated buffer with weight `1 / (frames + 1)` |
| Progressive.MeanStep | src/progressive.rs:23-31 | lerping the mean of `m` samples toward a new one with weight `1 / (m + 1)` gives the mean of the `m + 1` samples |
| Progressive.AccumulatedIsMean | src/progressive.rs:18-36 | after `k >= 1` updates each entry is the arithmetic mean of the `k` frames' entries |
| Progressive.FirstMerge | src/progressive.rs:22-23 | the first update replaces every entry by the frame |
| Progressive.ConstantFrames | src/progressive.rs:18-36 | merging the same frame `k >= 1` times yields that frame |
| Progressive.BlendAll | src/progressive.rs:25-31 | the in-place loop over the array leaves it equal to the merge of its old contents with the frame |
| Progressive.ProgressiveBuffer.constructor | src/progressive.rs:11-16 | `new(w, h)` holds `w * h` zero entries, `spp == 0` and no history |
| Progressive.ProgressiveBuffer.Update | src/progressive.rs:18-32 | `spp` grows by exactly 1, the frame joins the history, the array (same object, same length) becomes its merge with the frame at weight `1 / spp`, and the buffer stays the running mean |
| Progressive.ProgressiveBuffer.Spp | src/progressive.rs:34-36 | `spp()` is the number of frames merged |
| Progressive.ProgressiveBuffer.AsRef | src/progressive.rs:39-43 | `as_ref` exposes the stored entries unchanged, which are the per-entry means of all frames once one is merged |
| Pattern.TestPattern | src/lib.rs:13-27 | the output has `width * height` entries; pixel `(x, y)` sits at `(height - 1 - y) * width + x` with colour `(x/(width-1), y/(height-1), 0.25)`; all components lie in [0, 1]; the first pixel is `(0, 1, 0.25)` and the last `(1, 0, 0.25)` |
| Pattern.PixelInUnit | src/lib.rs:18-22 | every pixel's components lie in [0, 1] |
| Pattern.CornerIndices | src/lib.rs:16-17 | the top-left pixel is emitted first and the bottom-right one last |
| Pattern.CornerColors | src/lib.rs:18-22 | the top-left pixel is `(0, 1, 0.25)` and the bottom-right one `(1, 0, 0.25)` |
| UnionExample.UnionAsWrittenMisorders | src/shape/csg.rs:25-29 | as written, the union of the half-spaces `x < 1` and `x < 2` reports the point at `x = 2` with its parameter on the sub-ray, so a scene beside the wall `x < 1.5` reports the farther wall as the closest hit |
| UnionExample.UnionOrdersScene | src/shape/csg.rs:18-30 | with the hit remapped, the union reports `t = 0.2` on the probe and the scene reports the wall at `x = 1.5` (`t = 0.15`) as the closest |

## Left out

- The window and event loop, the camera and its ray generation, the denoiser, the parallel rendering and the conversion of pixels to `f32` are not part of this model. They are I/O, parallelism and lossy casts.
- The random number generators are not part of this model. Every draw is a parameter: the unit-vector tape `random` read at cursor `k`, and the volume's `u`, `v` and `rv`.
- `Lambertian::random_vec` and `Ray::wobbled` use trigonometry on random draws. They are not modelled; their unit vectors come from the tape.
- The display-side colour functions are not part of this model: the filmic tone curve, the sRGB transfer, `powf`, `powi` and `from_vec`.
- The `Normals` albedo is not modelled: it normalises and raises to a power for display. Every albedo here is `Solid`.
- The composite material (`material/composite.rs`) is not part of the build and is not modelled. Neither is `shape/csg.cursed.rs`.
- `Vec3` and `Pos` come from `math/space.rs` and an external crate, which are not part of this model. `Vec3` is modelled directly over reals. `Pos` is four opaque maps.
- `Vectors.Lerp` models the vector `lerp` of that crate as `a (1 - t) + b t`.
- Floating point is not modelled: rounding, NaN and infinities. Where the source would produce NaN or infinity, the model says what it does instead:
  - `Planes.Intersect` returns None for a ray parallel to the plane or of zero length;
  - `Spheres.SphereTrace` and `Spheres.SphereTraceAsWritten` return None for a direction of zero length;
  - `Vectors.Normalized` returns the zero vector unchanged;
  - `Volumes.VolumeTrace` returns None for a zero-length ray. Its `Scatters` treats zero density as always scattering.
- Rays.TFor: returns 0 for a ray of zero length, where `t_for` (src/math/ray.rs:56) divides by a zero `length_squared` and yields NaN. `Hits.MapOntoSuper` inherits this for a zero-length parent ray.
- Spheres.SphereTrace, Spheres.SphereTraceAsWritten, Spheres.SphereHit and Spheres.SphereShape: require `radius != 0`. The source divides by the radius for the normal (src/shape/sphere.rs:47) and gets infinite or NaN components for a zero radius.
- Colors.Div and Colors.ColorCell.DivAssign: require every component of the divisor to be non-zero. The source divides unconditionally (src/math/color.rs:59-69) and gets infinities or NaN.
- Colors.DivScalar and Colors.ColorCell.DivScalarAssign: require a non-zero divisor. The source divides unconditionally (src/math/color.rs:91-101).
- Pattern.TestPattern: requires `width != 1` and `height != 1`. With one column or row the source divides 0 by 0 and emits NaN components, which reals cannot represent.
- Volumes.VolumeTrace: the source asserts `end_t > start_t` and panics otherwise. The model reports no hit instead.
- Progressive.ProgressiveBuffer.Update: the source asserts that the frame has the buffer's length and panics otherwise. This is a precondition here.
- Scene.TraceScene: the source asserts that every object hit lies in [0, 1) and panics otherwise. This is a precondition here (`HitsWithinRay`).
- Csg.UnionLoop: the loop terminates only by geometry, so it runs on a `fuel` budget. An exhausted budget reports no hit.
- Csg.SubtractSkip: runs on a `fuel` budget for the same reason. An exhausted budget reports no hit.
- Shading.MaterialColor: a back face of a portal spends no reflection, so termination needs a second budget. Consecutive pass-throughs spend `passes`, which is reset to `Tracer.maxPasses` by every spent reflection. A pass-through with none left is black.
- The reflection budget (`u8`) and the sample count (`u64`) are unbounded naturals. The budget is only decremented when it is at least 1, and 2^64 frames are out of reach, so neither wraps.
- Csg.UnionShape, Csg.SubtractShape and Volumes.VolumeShape: these state that hits stay on the caller's ray (`KeepsRay`), but not that their parameters lie in [0, 1) (`WithinRay`). Those parameters come from remapping and re-tracing, and no such bound is proved for them.
- The Metal rule reads its albedo before it perturbs the normal. Every albedo here is `Solid` and ignores the hit, so that order is not observable in the model.
- Glossy has no lemma of its own. Its two branches appear in `Shading.MaterialColor`, which the radiance and dark-scene lemmas cover.

## Findings

| source | as written | input that shows it | evidently intended | confidence | as-written member | corrected member |
|---|---|---|---|---|---|---|
| src/shape/sphere.rs:41 | a hit is rejected only when `t * t > ray.length_squared()`, which bounds `t` by the ray's length instead of by its end at `t = 1` | a sphere of radius 1 about (50, 0, 0) and the ray from the origin with direction (10, 0, 0), which ends at x = 10: the test reports a hit at `t = 4.9`, far beyond the ray's end, which `TestScene::ray_trace` then rejects with its "hit after end" assertion (scene.rs:25) | reject `t >= 1`, as `Plane::intersect` does and as the scene asserts | high; not executed | SphereExample.AsWrittenHitsBeyondRay | Spheres.SphereTrace |
| src/shape/csg.rs:25-29 | the hit kept after the union's loop is returned on the sub-ray `portion` it was traced along, with `t` measured along that sub-ray, not remapped onto the caller's ray | the half-spaces `x < 1` and `x < 2` united, a ray from the origin along +x with direction length 10, and the wall `x < 1.5` beside them in a scene: the union reports the point at x = 2 at about `t = 0.111` on its sub-ray (0.2 on the ray), so the scene picks it over the wall at `t = 0.15` | remap the hit onto the caller's ray with `map_onto_super`, as `Subtract::ray_trace` (csg.rs:55-56) and `Volume::ray_trace` do | medium; not executed | UnionExample.UnionAsWrittenMisorders | Csg.UnionTrace |
