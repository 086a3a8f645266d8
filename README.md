# lightwave core in Dafny

A model of the rendering core of lightwave, a small CPU path tracer. It covers:

- the closest-hit protocol between shapes, instances and the caller-owned `Intersection` record;
- the BSDF family (diffuse, smooth and rough dielectric, rough conductor, principled) as one sum type;
- the point, directional, area and environment lights and Lambertian emission;
- the checkerboard and image textures;
- the perspective and thin-lens cameras;
- the path-tracing, direct, albedo and normals integrators.

Floating-point quantities are `real`.

- Infinity (a distance or density) is the `Ext` value `Infinity`.
- A null pointer or an unset field is `None`.

The helpers the core calls but whose code is not part of this model are function-valued fields of `Kernel.Kernel`:

- `sqrt`, `atan2`, `asin`;
- `reflect`, `refract`, `fresnelDielectric`, `schlick`;
- the microfacet functions and the `squareTo*` warps.

The facts the core relies on are ghost predicates (`SqrtSound`, `TrigRanges`) that the lemmas take as preconditions. Textures, transforms, images and the scene are datatypes of function values. The sampler's numbers are explicit parameters (`rnd`, `dec`). The integrators see the scene through an oracle whose draws are indexed by the path vertex.

The code's own form is kept:

- `Intersection` is a class.
  - `Sphere.Intersect`, `Mesh.TriangleMesh.Intersect` and `Instances.IntersectInPlace` update it in place.
  - Each is proved against a function of the old record (`Sphere.Test`, `Mesh.TriangleTest`, `Instances.Intersect`).
- `Instances.GetBoundingBox` keeps the 8-corner loop over the coordinate bits.
- The mesh constructor keeps its area accumulation loop.
- The path tracer's `Li` is a loop. `Integrators.PathTracerLi` is proved equal to `PathTrace`, an estimate defined over the list of completed bounces (`Path`). Its loop body is the method `Integrators.Vertex`.
- Everything else is a function, with lemmas about it.

The thin-lens camera's lens branch returns the lens ray in camera space, because the code discards the world-space ray it computes (src/cameras/thinlens.cpp:64-66). `Cameras.LensGeometry` states this as written.

## Model

| member | source | states |
|---|---|---|
| Sphere.Populate | src/shapes/sphere.cpp:5-25 | writes exactly the surface fields of the hit point, leaving `t` and the instance alone |
| Sphere.PopulateFacts | src/shapes/sphere.cpp:5-25 | position and both normals are the hit point and pdf is 0; the tangent is orthogonal to the normal and non-zero on the unit sphere |
| Sphere.UvInUnitSquare | src/shapes/sphere.cpp:11-12 | given the ranges of atan2 and asin, both texture coordinates lie in [0,1] |
| Sphere.Intersect | src/shapes/sphere.cpp:30-74 | reports a hit exactly when the test accepts one; then it writes `t` and the surface, otherwise the record is unchanged |
| Sphere.AcceptanceWindow | src/shapes/sphere.cpp:38-73 | a negative discriminant is a miss; a hit is reported iff the selected root lies in `[Epsilon, its.t]` (equality with `its.t` accepted), at `ray(t)` |
| Sphere.RootChoice | src/shapes/sphere.cpp:47-58 | `t0` when `t0 > Epsilon`, else `t1` when `t1 > 0`, else no root; a selected root is positive |
| Sphere.HitOnSphere | src/shapes/sphere.cpp:38-72 | for a unit-direction ray and a sound sqrt, the accepted hit point lies on the unit sphere |
| Sphere.RootOnSphere | src/shapes/sphere.cpp:38-58 | the selected root of a unit-direction ray is a point of the unit sphere |
| Sphere.BoundsEnclose | src/shapes/sphere.cpp:76-80 | the box `[-1,1]^3` contains every point of the unit ball and the centroid |
| Mesh.TriangleMesh.constructor | src/shapes/mesh.cpp:139-161 | keeps the buffers and flag and accumulates `area` as the sum of the triangle areas over all triangles |
| Mesh.TriangleMesh.Intersect | src/shapes/mesh.cpp:40-92 | reports a hit exactly when the per-primitive test accepts one; then it writes `t` and the surface, otherwise the record is unchanged |
| Mesh.TriangleTestAccepts | src/shapes/mesh.cpp:62-89 | an accepted hit has `u in [0,1]`, `v >= 0`, `u+v <= 1`, `t in [Epsilon, its.t]`, position `ray(t)` and pdf 0; without smooth normals the shading normal is the geometric one |
| Mesh.DegenerateGuardNeverFires | src/shapes/mesh.cpp:56 | the guard `fabs(det) < 0` is false for every determinant |
| Mesh.InPlaneRayPassesGuard | src/shapes/mesh.cpp:54-59 | a ray in the plane of a concrete triangle has determinant 0, which the source's guard lets through, and the corrected test reports it as a miss |
| Mesh.DegenerateMisses | src/shapes/mesh.cpp:54-57 | a determinant the corrected guard rejects is a miss whatever the other inputs |
| Mesh.DegenerateIffParallel | src/shapes/mesh.cpp:51-57 | the corrected guard fires exactly when the ray direction is orthogonal to the edge cross product |
| Mesh.PrimitiveBoundsEnclose | src/shapes/mesh.cpp:103-136 | the componentwise min/max box contains the three vertices and the centroid, and each of its six bounds is a coordinate of one of the vertices on that axis |
| Mesh.PrimitiveCentroid | src/shapes/mesh.cpp:127-136 | the centroid is the mean of the three vertices: three times it is their sum |
| Mesh.AreaSumNonNegative | src/shapes/mesh.cpp:148-160 | the accumulated area is non-negative |
| Mesh.SampleRectangleFacts | src/shapes/mesh.cpp:169-195 | for `rnd` in the unit square: z = 0, x and y in [-1,1], uv = (x,y), normals (0,0,1), tangent (1,0,0), `pdf * area == 1` |
| Instances.SphereShapeSound | src/shapes/sphere.cpp:30-82 | the sphere accepts only hits in `[Epsilon, tMax]`, places them at `ray(t)`, and has no area sampler |
| Instances.FrameToWorld | src/core/instance.cpp:8-20 | the shading normal becomes the geometric normal; position, uv and pdf are untouched |
| Instances.FrameToWorldTangent | src/core/instance.cpp:12-13 | the reprojected tangent is normalised, with unit length when the tangent is non-zero |
| Instances.TransformFrame | src/core/instance.cpp:8-20 | rewrites only the surface fields of the record, to their reprojected frame |
| Instances.IntersectInPlace | src/core/instance.cpp:49-92 | a miss leaves the record as on entry (restoring `its.t`); a hit leaves the accepted record and reports its validation outcome |
| Instances.AcceptedHitsValidate | src/core/instance.cpp:22-84 | behind a shape that keeps to `[Epsilon, tMax]`, validation of an accepted hit never fails, with or without a transform |
| Instances.UntransformedForwards | src/core/instance.cpp:51-60 | without a transform the shape sees the ray and `its.t` unchanged; a miss iff the shape misses; a hit stamps the instance and never increases `t` |
| Instances.TransformedHitInWorldSpace | src/core/instance.cpp:62-90 | with a transform a hit is reported at the transformed shape position, at its world distance from the ray origin, with the shading normal equal to the geometric normal |
| Instances.IdentityRoundTrip | src/core/instance.cpp:62-90 | under an identity transform and a unit ray the hit decision and distance equal the bare shape's, including the rescaled `its.t` |
| Instances.CornerEnumeration | src/core/instance.cpp:106-112 | every min/max choice per axis is the bit pattern of exactly one corner number below 8 |
| Instances.GetBoundingBox | src/core/instance.cpp:94-117 | the shape's box without a transform (empty or not), the full box for an unbounded shape, else a box containing all eight transformed corners |
| Instances.Centroid | src/core/instance.cpp:119-126 | the shape's centroid without a transform, and the transform applied to it with one |
| Instances.SampleArea | src/core/instance.cpp:128-132 | the fault `Unsupported` from a shape without a sampler; the fault `NullTransform` where the code dereferences a null transform; otherwise the shape's position and pdf with the shading normal set to the geometric normal |
| Bsdfs.Evaluate | src/bsdfs/dielectric.cpp:19-25 | the smooth dielectric always evaluates invalid; the diffuse BSDF evaluates invalid across hemispheres |
| Bsdfs.Sample | src/bsdfs/diffuse.cpp:24-40 | only the rough dielectric reports a density; the diffuse weight is the albedo |
| Bsdfs.SampleNormalized | src/bsdfs/dielectric.cpp:58 | the diffuse, dielectric and rough dielectric samples return normalised directions |
| Diffuse.FlipFacts | src/bsdfs/diffuse.cpp:27-33 | the fix-up changes only the sign of z, leaves a right-hemisphere direction alone, and lands in `wo`'s hemisphere when neither z is 0 |
| Diffuse.EvaluateGate | src/bsdfs/diffuse.cpp:13-22 | invalid across hemispheres; otherwise `albedo * InvPi * abs(cos wi)` |
| Diffuse.WeightIsAlbedo | src/bsdfs/diffuse.cpp:38-44 | the sample weight is the albedo texture value for every `wo` and draw, with no density |
| Diffuse.SampleMatchesEvaluate | src/bsdfs/diffuse.cpp:24-40 | the sampled direction lies in `wo`'s hemisphere and `evaluate(wi) == weight * cosinePdf(wi)` |
| Diffuse.SampledDirectionInHemisphere | src/bsdfs/diffuse.cpp:31-38 | the flipped, normalised direction is in `wo`'s hemisphere and unit |
| Dielectric.Evaluate | src/bsdfs/dielectric.cpp:19-25 | always invalid |
| Dielectric.OrientFacts | src/bsdfs/dielectric.cpp:30-39 | from below the index is inverted and the normal negated; the cosine used is `abs(cos wo)` |
| Dielectric.SampleFollowsChoice | src/bsdfs/dielectric.cpp:27-59 | reflection (draw at most Fresnel, or total internal reflection) gives the reflected direction and the reflectance; refraction gives the refracted direction and `transmittance / ior^2` with the oriented index |
| Dielectric.SampleNormalized | src/bsdfs/dielectric.cpp:58 | the returned direction is normalised |
| RoughConductor.Alpha | src/bsdfs/roughconductor.cpp:22 | `alpha` is at least 0.001 and at least the squared roughness, and is one of the two |
| RoughConductor.SampleReflects | src/bsdfs/roughconductor.cpp:41-44 | the sampled direction is `wo` reflected about the VNDF normal at the clamped alpha |
| RoughConductor.SampleWeightCancels | src/bsdfs/roughconductor.cpp:17-57 | evaluating the sampled direction gives the weight times `D G1(wo) / (4 abs(cos wo))`, the two-factor cancellation |
| RoughConductor.EvaluateOverPdfIsWeight | src/bsdfs/roughconductor.cpp:17-57 | the same cancellation for the rough conductor at the clamped alpha of its texture |
| RoughDielectric.OpaqueIsConductor | src/bsdfs/roughdielectric.cpp:22-51 | with zero transmittance the value is the conductor term on `normalize(wi+wo)` scaled by Fresnel |
| RoughDielectric.SampleFollowsChoice | src/bsdfs/roughdielectric.cpp:53-88 | Fresnel is taken at `abs(cos wo)`; reflection on `dec <= F` or TIR with pdf `det*F`, refraction with pdf `det*(1-F)` and `transmittance / ior^2`; alpha >= 0.001 |
| RoughDielectric.PdfSplit | src/bsdfs/roughdielectric.cpp:76-86 | the two lobe densities sum to `detReflection` |
| RoughDielectric.FlipBelow | src/bsdfs/roughdielectric.cpp:61-67 | below the surface the microfacet normal is negated, the index inverted and the cosine negated |
| RoughDielectric.SampleNormalized | src/bsdfs/roughdielectric.cpp:87 | the returned direction is normalised |
| Principled.SelectionProbRange | src/bsdfs/principled.cpp:113-118 | the selection probability lies in [0,1], is 1 for zero total albedo, and is the diffuse share otherwise |
| Principled.CombineInRange | src/bsdfs/principled.cpp:97-122 | non-negative base colour and unit-range metallic, specular and Schlick terms give non-negative lobe colours, `p in [0,1]` and alpha >= 0.001 |
| Principled.EvaluateLobes | src/bsdfs/principled.cpp:132-147 | across hemispheres only the metallic lobe contributes; otherwise the diffuse cosine term is added to it |
| Principled.AsWrittenDividesByZero | src/bsdfs/principled.cpp:113-162 | a fully metallic material has `p == 0`, so the draw 0 takes the diffuse branch and divides by zero |
| Principled.CorrectedDivisors | src/bsdfs/principled.cpp:160-166 | with `dec < p` as the decision and a draw in [0,1), both branches divide by a positive number |
| Principled.SampleIsChosenLobe | src/bsdfs/principled.cpp:149-172 | the sample is the chosen lobe's direction with its weight divided by the chance of choosing it |
| Principled.AgreesAwayFromP | src/bsdfs/principled.cpp:158-166 | the as-written and the corrected decision agree for every draw other than `p`; with `p == 1` the diffuse lobe is always taken |
| Emissions.MakeLambertian | src/emissions/lambertian.cpp:10-13 | intensity defaults to 1 and is otherwise the given value |
| Emissions.Evaluate | src/emissions/lambertian.cpp:15-22 | black when `wo.z <= 0`, else `texture(uv) * intensity` |
| Emissions.SideOnly | src/emissions/lambertian.cpp:15-22 | the result depends on `wo` only through the side it lies on |
| Emissions.DefaultShowsTexture | src/emissions/lambertian.cpp:10-22 | with the default intensity the front side shows the texture value |
| Lights.CanBeIntersected | src/lights/area.cpp:34 | true exactly for the area light; false for point and directional lights |
| Lights.SampleDirect | src/lights/area.cpp:13-32 | point, directional and environment lights always sample; the area light samples exactly when its instance does |
| Lights.PointLightFacts | src/lights/point.cpp:15-23 | the weight is `power / 4Pi` for every origin; `distance = length(position - origin)`, `wi * distance == position - origin`, unit `wi`, no density |
| Lights.DirectionalLightFacts | src/lights/directional.cpp:15-21 | unit `wi` along the direction, weight = intensity, distance and density infinite |
| Lights.EnvironmentIsConstant | src/lights/envmap.cpp:19-49 | evaluation ignores the direction; weight `texture(0,0) * Inv4Pi` for every draw; `wi` is the uniform-sphere warp; distance infinite |
| Lights.AreaLightGeometry | src/lights/area.cpp:13-32 | `wi` is the un-normalised `position - origin`, distance its positive length, density unset |
| Lights.AreaLightWeight | src/lights/area.cpp:22-30 | weight black when the sample faces away; otherwise `emission * cos * (1/d^2) / pdf` |
| Lights.AreaWeightNonNegative | src/lights/area.cpp:22-30 | non-negative emission, intensity and density give a non-negative weight |
| Lights.AreaLightSamplesInstance | src/lights/area.cpp:13-20 | the area light fails exactly as its instance's `sampleArea` does, and otherwise aims at the sampled position |
| Textures.EvaluateCheckerboard | src/textures/checkerboard.cpp:16-25 | `color0` on even cells, `color1` on odd cells, nothing else |
| Textures.ZeroCellDoubled | src/textures/checkerboard.cpp:17-21 | truncation puts the whole open square (-1,1)^2 in cell 0, coloured `color0` |
| Textures.StepFlips | src/textures/checkerboard.cpp:17-24 | on the non-negative side one scaled unit along u switches colour |
| Textures.NegativeCellsShifted | src/textures/checkerboard.cpp:17-24 | for x in (-2,-1] and y in [0,1) the cell is -1, C++ `%` gives -1 and the colour is `color1` |
| Textures.RemTwo | src/textures/checkerboard.cpp:20 | C++ `% 2` is 0 exactly on even numbers and -1 on negative odd ones |
| Textures.TruncFacts | src/textures/checkerboard.cpp:17-20 | the integer conversion truncates toward zero and is 0 exactly on (-1,1) |
| Textures.MakeImageTexture | src/textures/image.cpp:22-41 | exposure defaults to 1, border to Repeat and filter to Bilinear |
| Textures.ClampBounds | src/textures/image.cpp:49-61 | clamp mode maps into [0,1] with v flipped, and the pixel index into [0,width] x [0,height] |
| Textures.RepeatRanges | src/textures/image.cpp:53-56 | repeat mode keeps the sign (negative u into (-1,0], otherwise [0,1)), shifts u by a whole number and flips v into (0,2) |
| Textures.RepeatPeriodic | src/textures/image.cpp:54 | on the non-negative side repeat mode has period 1 |
| Textures.FilterAndExposureUnused | src/textures/image.cpp:43-66 | the lookup does not depend on the filter mode or the exposure |
| Cameras.MakeRatios | src/cameras/perspective.cpp:27-41 | the measured axis gets the tangent of half the field of view, converted from degrees to radians |
| Cameras.RatiosKeepAspect | src/cameras/perspective.cpp:34-41 | for either axis `x_ratio * height == y_ratio * width` |
| Cameras.RatiosPositive | src/cameras/thinlens.cpp:22-36 | a positive image size and a field of view strictly between 0 and 180 degrees give positive ratios |
| Cameras.PerspectiveSample | src/cameras/perspective.cpp:44-57 | the weight is always 1 |
| Cameras.SignsFollowPixel | src/cameras/perspective.cpp:5-50 | with positive ratios a pixel left of (below) the centre looks along negative x (y), and every local direction points along +z |
| Cameras.ThinlensSample | src/cameras/thinlens.cpp:39-72 | the weight is always 1 |
| Cameras.PinholeIsPerspective | src/cameras/thinlens.cpp:69-71 | with lens radius <= 0 the ray is the perspective camera's, before the final normalisation |
| Cameras.LensGeometry | src/cameras/thinlens.cpp:50-67 | the origin is the scaled disk sample at z = 0, the focus point has z = focal distance and lies on the returned ray, and the ray stays in camera space |
| Integrators.LightSampleCases | src/integrators/pathtracer.cpp:7-25 | black for an invalid light sample or a shadow hit before the light; otherwise `term * probability == weight * bsdf(wi)` |
| Integrators.Path | src/integrators/pathtracer.cpp:44-68 | the walk from vertex `d` completes at most `depth - d` bounces |
| Integrators.PathTracerLi | src/integrators/pathtracer.cpp:33-71 | the loop returns exactly the estimate of the walk's bounces |
| Integrators.Vertex | src/integrators/pathtracer.cpp:45-67 | one loop pass either stops with the bounces complete or continues at the next vertex, keeping `li` and the throughput equal to their values on the bounces so far |
| Integrators.PathStep | src/integrators/pathtracer.cpp:53-67 | a vertex with a valid sample adds one bounce and continues only after a hit |
| Integrators.PathEnds | src/integrators/pathtracer.cpp:44-56 | no bounce past the vertex limit or from an invalid sample |
| Integrators.Extend | src/integrators/pathtracer.cpp:62-63 | appending a bounce adds its contribution under the old throughput and multiplies the throughput by its weight |
| Integrators.ShallowDepth | src/integrators/pathtracer.cpp:28-44 | a vertex limit of at most 1 returns the first hit's (or the background's) emission |
| Integrators.InvalidFirstSampleDropsLight | src/integrators/pathtracer.cpp:48-56 | an invalid first BSDF sample returns only the first hit's emission, with no light term |
| Integrators.DirectIsTwoVertexPath | src/integrators/direct.cpp:29-51 | with a valid first sample (or a miss) the direct estimate is the path tracer's at depth 2; with an invalid one it keeps the light term |
| Integrators.PathTraceNonNegative | src/integrators/pathtracer.cpp:33-71 | a scene of non-negative quantities gives a non-negative estimate |
| Integrators.AlbedoCases | src/integrators/albedo.cpp:11-30 | grey 0.5 on a miss, the emission for an emitter without BSDF, black with neither, else the albedo |
| Integrators.NormalsRemap | src/integrators/normals.cpp:13-19 | remapping is `(n+1)/2`, invertible and into [0,1] for unit-cube normals; without it the colour is the normal |

## Left out

- Floating point: rounding, NaN and infinity arithmetic are not modelled. A division by a value that may be zero is a precondition. This covers an index of refraction, a light's selection probability, a sample's density, a mesh's area, an image size and a distance.
- Helpers not shown (`Frame`, `reflect`, `refract`, `fresnelDielectric`, `schlick`, the microfacet functions, the warps, `tan`, `atan2`, `asin`, `sqrt`) are uninterpreted; only `SqrtSound` and `TrigRanges` (the ranges of `atan2` and `asin`, and a positive `tan` between 0 and Pi/2) are assumed of them. The Kernel's `Normalized` divides by the length and leaves the zero vector alone.
- The value of `Epsilon` comes from a header that is not part of this model; it is taken as 1e-5.
- `Sampler` is replaced by explicit numbers; the integrators' draws are functions of the path vertex. No statistical property (unbiasedness, variance) is stated.
- `readPLY`, the acceleration structure and `TriangleMesh::intersect(ray)` (the BVH traversal) are not modelled; the mesh shape takes its traversal as a parameter.
- `denoise.cpp` (foreign calls, I/O) and the unregistered `normal.cpp` duplicate are not modelled.
- Logging, `toString`, profiling, registration macros and `Properties` parsing beyond the defaults are not modelled.
- `Sphere::sampleArea` is not implemented in the code and is modelled as unsupported.
- `Instances.SampleArea` keeps the shape's position in object space, as the code does; only the frame is reprojected. For an instance without a transform the code dereferences a null pointer; the model reports this as the fault `NullTransform` instead of a crash.
- `Instances.GetBoundingBox`: with a transform, an empty shape box is excluded by its precondition, because its corners are floating-point infinities, which the model does not represent. Without a transform the shape's box, empty or not, is returned as the code does.
- `Lights.CanBeIntersected`: the environment map's answer comes from a base class that is not part of this model.
- `Lights.SampleDirect`: the area light requires its instance to carry an emission. The environment map's transform is unused by the code and not modelled.
- `Integrators.PathTracerLi`: the scene's `intersect` ignores the sampler, and the `depth` default of 2 is a parameter.
- The rough dielectric's transmission term is modelled as written, including the half vector the code flags as doubtful.
- The base class `Bsdf::albedo` is not part of this model; only the diffuse BSDF's albedo is modelled.
- `Bsdfs.SampleNormalized`: the rough conductor and principled samples return their directions unnormalised, as the code does.
- `Mesh.TriangleMesh.Intersect`: uses the corrected degenerate guard. The as-written guard is kept beside it (see Findings).
- `Principled.Sample`: uses the corrected decision `dec < p`. The as-written decision is `Principled.SampleAsWritten` (see Findings).
- `Cameras.MakeRatios`: a field-of-view axis other than "x" or "y" leaves the ratios unset in the code; the model admits only the two axes.

## Findings

| source | as written | input that shows it | evidently intended | confidence | as-written member | corrected member |
|---|---|---|---|---|---|---|
| src/shapes/mesh.cpp:56 | `if (fabs(det) < 0) return false;` never fires | triangle (0,0,0), (1,0,0), (0,1,0) and a ray along (1,0,0) in its plane: `det == 0`, then `1 / det` | a zero determinant (a ray parallel to the triangle) is a miss | high; not executed | Mesh.InPlaneRayPassesGuard | Mesh.DegenerateIffParallel |
| src/bsdfs/principled.cpp:160 | diffuse lobe chosen when `dec <= p`, then weight divided by `p` | a fully metallic material (`p == 0`) and the draw `dec == 0` divide by zero | diffuse lobe chosen when `dec < p`, so neither branch divides by zero | medium; not executed | Principled.AsWrittenDividesByZero | Principled.CorrectedDivisors |
