# A verified model of an early ray-tracer snapshot

This project models the core of a small Rust ray tracer, an early snapshot of
the "Ray Tracing in One Weekend" design. It covers:

- three-component vectors (`vec3.dfy`, module `VecMath`);
- rays (`ray.dfy`, `Rays`);
- materials and the hit record (`material.dfy`, `Materials`);
- spheres (`sphere.dfy`, `Spheres`);
- the scene list that finds the nearest hit (`hittable_list.dfy`, `HittableLists`);
- the fixed camera (`camera.dfy`, `Cameras`).

All arithmetic uses exact reals (`real`) instead of `f64`. A square root
cannot be computed over `real`, so each member that needs one takes it as a
parameter `sqrt: real -> real`. The ghost predicate `VecMath.IsSqrt` states
what that parameter must do: for `x >= 0`, `sqrt(x) >= 0` and
`sqrt(x) * sqrt(x) == x`.

The two open traits become closed datatypes:

- `Hittable` becomes `Spheres.Sphere`, the only primitive in this snapshot.
- `Material` becomes `Materials.Material`, which is `Lambertian` or `Metal`.

A `HitRecord` holds its material by value. It lives in `Materials` because
`src/hittable.rs` and `src/material.rs` refer to each other, and Dafny modules
cannot import each other in a cycle.

The scene's `hit` is imperative in the source: a `for` loop that narrows
`closest_so_far`. It is modelled as the method `HittableLists.Hit` with loop
invariants. Everything else in the source builds fresh values, so it is
modelled with functions and lemmas.

The central results are:

- A sphere reports the nearest point of its surface strictly inside
  `(tMin, tMax)` (`Spheres.HitIsNearestRoot`).
- Narrowing the window keeps exactly the hits below the new bound
  (`Spheres.HitShrink`).
- The scene therefore returns the nearest hit of all members, and on a tie
  the earliest member wins (`HittableLists.Hit`). This specification
  determines the result uniquely (`HittableLists.NearestIsUnique`).

`Spheres.PositiveDiscriminant` shows that a positive discriminant needs a
non-zero direction and a non-zero radius. It follows from the
Cauchy-Schwarz inequality. So in exact arithmetic `Sphere::hit` needs no
precondition against dividing by zero: with a zero direction or a zero
radius, the code never reaches a division.

## Model

| member | source | states |
|---|---|---|
| `VecMath.AccessorsOfNew` | src/vec3.rs:13-37 | `x`/`r`, `y`/`g` and `z`/`b` return the components passed to `new` |
| `VecMath.SquaredLengthNonNegative` | src/vec3.rs:43-45 | `squared_length(v) == v.dot(v)`, and it is never negative |
| `VecMath.Vec3.Length` | src/vec3.rs:39-41 | the length is non-negative and its square is `squared_length` |
| `VecMath.DotCommutes` | src/vec3.rs:52-54 | `dot` is commutative |
| `VecMath.DotLinear` | src/vec3.rs:52-54 | `dot` is linear in its left argument under `+`, `-` and scaling |
| `VecMath.CrossOrthogonal` | src/vec3.rs:56-62 | `cross(v1, v2)` is orthogonal to both `v1` and `v2` |
| `VecMath.CrossAntisymmetric` | src/vec3.rs:56-62 | `cross(v1, v2) == -cross(v2, v1)`, and `cross(v, v)` is zero |
| `VecMath.Lagrange` | src/vec3.rs:52-62 | `(u.u)(v.v) - (u.v)^2` is the squared length of `cross(u, v)` |
| `VecMath.CauchySchwarz` | src/vec3.rs:52-54 | `(u.v)^2 <= (u.u)(v.v)` |
| `VecMath.SubSquaredLength` | src/vec3.rs:86-92 | the squared length of `v - w` is `squared_length(v) - 2 w.v + squared_length(w)` |
| `VecMath.AddSubCancel` | src/vec3.rs:69-100 | subtracting a vector, or a scalar, undoes adding it |
| `VecMath.MulDivCancel` | src/vec3.rs:103-133 | dividing component-wise, or by a scalar, undoes the matching product, for non-zero divisors |
| `VecMath.ScaleSquaredLength` | src/vec3.rs:111-117 | scaling by `s` multiplies `squared_length` by `s*s` |
| `VecMath.UnitVectorIsUnit` | src/vec3.rs:47-50 | for a non-zero vector, `make_unit_vector == unit_vector`, and the result has squared length 1 |
| `VecMath.SquareRootUnique` | src/vec3.rs:39-41 | any two non-negative roots of the same square are equal, so `sqrt` is determined |
| `Rays.AccessorsOfNew` | src/ray.rs:11-24 | `origin()` and `direction()` return the constructor's arguments unchanged |
| `Rays.PointAtZeroAndOne` | src/ray.rs:26-28 | the point at 0 is the origin; the point at 1 is `origin + direction` |
| `Rays.PointAtSum` | src/ray.rs:26-28 | `point_at_parameter(s + t) == point_at_parameter(s) + direction * t` |
| `Rays.PointAtOffset` | src/ray.rs:26-28 | `point_at_parameter(t) - origin == direction * t` |
| `Rays.SquaredDistanceQuadratic` | src/ray.rs:26-28 | the squared distance from a point to the point at `t` is the quadratic `a t^2 + 2 b t + c'` that the sphere test solves |
| `Materials.NewLambertian` | src/material.rs:22-28 | `Lambertian::new(x, y, z)` is a Lambertian with albedo `(x, y, z)` |
| `Materials.NewMetal` | src/material.rs:35-42 | the stored fuzz never exceeds 1; it equals `f` when `f < 1`, and is 1 otherwise |
| `Materials.ReflectFlipsNormalComponent` | src/material.rs:43-45 | for a unit `n`, `dot(reflect(v, n), n) == -dot(v, n)` |
| `Materials.ReflectPreservesLength` | src/material.rs:43-45 | for a unit `n`, `reflect` preserves squared length |
| `Materials.ReflectInvolution` | src/material.rs:43-45 | for a unit `n`, reflecting twice gives back `v` |
| `Materials.Material.Scatter` | src/material.rs:14-54 | `Lambertian::scatter` (lines 15-19) and `Metal::scatter` (lines 49-53) both attenuate by their albedo, and the scattered ray starts at the hit point |
| `Materials.LambertianScatter` | src/material.rs:15-19 | Lambertian always scatters, with attenuation `albedo`, along `normal + sample` from `rec.p` |
| `Materials.MetalScatterFlag` | src/material.rs:49-53 | metal scatters exactly when `dot(scattered.direction, rec.normal) > 0` |
| `Materials.PerfectMirror` | src/material.rs:49-53 | with fuzz 0 the scattered direction is `reflect(unit_vector(r_in.direction), normal)`; for a unit normal the ray scatters exactly when it arrives against the normal |
| `Spheres.NewSphere` | src/sphere.rs:34-40 | `Sphere::new` stores centre `(x, y, z)`, radius `r` and material `m` |
| `Spheres.Hit` | src/sphere.rs:13-30 | a reported hit lies strictly inside `(t_min, t_max)` and is the record `get_hit_record` builds for its `t` |
| `Spheres.GetHitRecord` | src/sphere.rs:42-51 | the record is always present; it has the given `t`, `p == point_at_parameter(t)`, `normal * radius == p - center` and the sphere's material |
| `Spheres.PositiveDiscriminant` | src/sphere.rs:15-20 | a positive discriminant implies `a > 0` and `radius != 0`, so both divisions are defined |
| `Spheres.OnSphereQuadratic` | src/sphere.rs:14-18 | `t` solves `a t^2 + 2 b t + c == 0` exactly when the point at `t` is on the sphere |
| `Spheres.Roots` | src/sphere.rs:18-26 | for a positive discriminant, both candidate roots are on the sphere, the smaller is strictly below the larger, and no other `t` is on the sphere |
| `Spheres.NoRoots` | src/sphere.rs:18-19 | for a negative discriminant, no point of the ray is on the sphere |
| `Spheres.HitIffSurfaceInWindow` | src/sphere.rs:13-30 | for a ray that is not tangent, `hit` returns `Some` exactly when some point of the sphere lies strictly inside `(t_min, t_max)` |
| `Spheres.TangentMisses` | src/sphere.rs:18-19 | when `b*b - a*c <= 0` there is no hit, so tangent rays miss |
| `Spheres.SmallerRootPreferred` | src/sphere.rs:20-22 | if the smaller root is inside the window, it is the one returned |
| `Spheres.HitChoosesRoot` | src/sphere.rs:20-26 | a returned `t` is a root, and it is the larger root only when the smaller one is outside the window |
| `Spheres.HitIsNearestRoot` | src/sphere.rs:13-30 | a returned `t` is on the sphere, and no point of the sphere lies in `(t_min, t)`; a miss with a non-zero discriminant means no point of the sphere lies in the window |
| `Spheres.HitRecordIsUnitNormal` | src/sphere.rs:42-51 | the record has `p == point_at_parameter(t)`, `normal == (p - center) / radius` of squared length 1, and the sphere's material |
| `Spheres.SurfaceRecord` | src/sphere.rs:42-51 | for a point on the surface, the record's normal is `(p - center) / radius` and has squared length 1 |
| `Spheres.HitShrink` | src/sphere.rs:13-30 | lowering `t_max` to `c` keeps the hit if its `t < c` and otherwise gives `None` |
| `Spheres.CentreRayHitsFront` | src/sphere.rs:13-51 | the ray from the origin down `-z` meets the sphere of radius 0.5 at `(0, 0, -1)` at `t = 0.5`, at `(0, 0, -0.5)`, with normal `(0, 0, 1)` |
| `HittableLists.New` | src/hittable_list.rs:26-32 | `HittableList::new` keeps the members in their order |
| `HittableLists.Hit` | src/hittable_list.rs:8-24 | the result is `None` exactly when no member hits in `(t_min, t_max)`; otherwise it lies in the window and is the hit of the member with the smallest `t`, the earliest member on a tie (this covers the empty list) |
| `HittableLists.ScanStep` | src/hittable_list.rs:12-20 | one loop step extends the nearest hit from `k` members to `k + 1`, and a replacement strictly lowers `closest_so_far` |
| `HittableLists.NearestStep` | src/hittable_list.rs:13-20 | on the per-member reports alone: a report below `closest_so_far` becomes the nearest of `k + 1`, and otherwise the current result stays the nearest |
| `HittableLists.NearestIsUnique` | src/hittable_list.rs:9-23 | at most one result meets the specification of `hit`, so it fixes the result |
| `Cameras.GetRayOfNew` | src/camera.rs:12-23 | every ray of `Camera::new()` starts at the origin, with direction `(-2 + 4u, -1 + 2v, -1)` |
| `Cameras.GetRayCorners` | src/camera.rs:12-23 | `get_ray(0,0)` points along `(-2,-1,-1)`, `get_ray(1,1)` along `(2,1,-1)`, and `get_ray(0.5,0.5)` along `(0,0,-1)` |

## Left out

- Floating point: IEEE-754 rounding, NaN and infinities are not modelled. Reals are exact. The source's `f64::MAX` as `t_max` becomes a bound chosen by the caller.
- Division by zero under rounding: with `f64`, a zero radius can still give a tiny positive computed discriminant, and then `get_hit_record` divides by zero. The exact-real model does not capture this, so `Spheres.PositiveDiscriminant` holds only in exact arithmetic.
- `sqrt` is a parameter constrained by `IsSqrt`. It is not computed.
- `random_in_unit_sphere` is not part of this model. Each scatter takes its random sample as the parameter `sample`, with no constraint on it.
- `Display for Vec3` (src/vec3.rs:136-141) prints to standard output, so it is left out.
- src/main.rs is left out: it allocates the image buffer, writes the PNG and prints. Its `color` is a constant stub.
- The `Sync` bound on `Hittable` is a concurrency marker with no behaviour, so it is left out.
- Trait objects (`Box<dyn Hittable>`, `&dyn Material`) become closed datatypes. The scene holds spheres, and a hit record holds a copy of the material instead of a borrow.
- `HittableList::hit` takes `&self`. The model's scene is an immutable value, so "the list is unchanged" holds by construction and needs no lemma.
- Vector division by a zero component, and normalising a zero vector, are excluded by preconditions on `Div`, `DivScalar`, `MakeUnitVector` and `UnitVector`. The source would produce infinities or NaN there.
- Materials.Material.Scatter: for a metal it requires a non-zero incoming direction, because the source normalises that direction and would otherwise produce NaN.
- Dielectric refraction, the Schlick approximation, a lens camera and the recursive colour integrator are not in this snapshot, so they are not modelled.
- The fuzz clamp in `Metal::new` only caps values at 1. The code does not clamp a negative `f`, so a negative fuzz is stored unchanged, and the model follows the code here. A design that describes fuzz as lying in `[0, 1]` would need a lower clamp as well.
