# Collision core of a first-person OpenGL viewer, in Dafny

This project models the collision subsystem of a small OpenGL viewer. The
camera walks through a school model. Each frame it sums the movement keys
into a tentative position. It asks whether any triangle of the school lies
within 0.2 of that position. The move is committed, with the height forced
to 2.5, only when collision is disabled or nothing is near. The triangles come from a one-time
computation that maps every mesh's vertices through the school's model
matrix. Three flags (collision, AABB display, flashlight) are toggled on
the rising edge of F1, F2 and F.

Everything is stated over `real`. A vector is `Vec3`, a matrix `Mat4`
(stored by rows), and `glm::vec3(M * glm::vec4(p, 1))` is `Transform(M, p)`.

| file | module | models |
|---|---|---|
| linear.dfy | `Linear` | vectors, 4x4 matrices, `translate`/`scale` post-multiplication |
| aabb.dfy | `Aabb` | `AABB`, `transformAABB` |
| meshes.dfy | `Meshes` | `Vertex`, `Triangle`, `Mesh`, the constructor's local box, `ComputeWorldTriangles` |
| collision.dfy | `Collision` | `closestPointOnTriangle`, `isPointNearPrecomputedMesh`, `isInsideAABB` |
| camera.dfy | `Camera` | the key sum, collision gate and commit of `Camera::Inputs` |
| main_loop.dfy | `MainLoop` | the school matrix, the world-triangle pass, the frame, the F1/F2/F toggles |

The central result concerns `closestPointOnTriangle`. For a non-degenerate
triangle, the point it returns lies in the closed triangle, and no point of
the triangle is strictly closer (`Collision.ClosestPointIsNearest`).

The proof runs in triangle coordinates `(s, t)`. In those coordinates the
squared distance is a convex quadratic. Each of the seven regions the
source can select yields a feasible point at which the quadratic cannot
decrease towards any corner. `Collision.RegionStationary` proves this, and
`Collision.StationaryIsMinimum` turns it into global minimality.

`Collision.ClassifySelected` pins the if-chain down. The region returned is
the only one whose own test holds while all earlier tests fail.

`Camera.Step` and `MainLoop.UpdateToggles` are pure reference definitions
of one call of `Inputs` and of the toggle block. The methods
`Camera.Inputs`, `MainLoop.ToggleBlock` and `MainLoop.Frame` follow the
source's statements and are proved equal to them.

The height override `nextPosition.y = 2.5f` is applied to the tentative
position (src/Camera.cpp:147-151). A detected collision discards that
position, so a blocked move keeps the old height; `Camera.StepHeight`
states this.

## Model

| member | source | states |
|---|---|---|
| Collision.ClosestPointIsNearest | src/Camera.cpp:8-51 | for a non-degenerate triangle, no point `a + s(b-a) + t(c-a)` of the closed triangle is strictly closer to `p` than the returned point |
| Collision.ClosestPointInTriangle | src/Camera.cpp:16-50 | the returned point lies in the closed triangle |
| Collision.ClosestPointCoordinates | src/Camera.cpp:16-50 | the returned point has coordinates `s, t >= 0`, `s + t <= 1`, and the squared distance does not decrease from there towards any corner |
| Collision.ClosestPointVertexA | src/Camera.cpp:14-16 | when `ab.ap <= 0` and `ac.ap <= 0` the result is exactly `a` (so `p == a` gives `a`) |
| Collision.Denominators | src/Camera.cpp:23-47 | `d1-d3`, `d2-d6` and `(d4-d3)+(d5-d6)` are the squared lengths of `ab`, `ac` and `bc`, and `va+vb+vc` is the squared length of `ab x ac`, so every division has a positive denominator on a non-degenerate triangle |
| Collision.ClassifySelected | src/Camera.cpp:16-50 | the region chosen satisfies its own test with every earlier test failing, and it is the only region that does |
| Collision.FaceWeightsNonNegative | src/Camera.cpp:40-50 | once all six region tests have failed, `va`, `vb` and `vc` are all non-negative, so the face branch's barycentric weights are valid |
| Collision.RegionStationary | src/Camera.cpp:16-50 | each selected region's parameters give a feasible point from which the squared distance does not descend towards any corner |
| Collision.StationaryIsMinimum | src/Camera.cpp:8-51 | a feasible point with no descent towards the corners minimises the squared distance over the whole triangle |
| Collision.DistanceAboveTriangle | src/Camera.cpp:8-51 | for a point `p` at offset `k n` along the normal above any point `x` of the closed triangle, the returned point is `x` itself (the foot of the perpendicular) and `p` is at squared distance exactly the squared length of `k n` from it |
| Collision.NearTriangleIffPointWithinRadius | src/Camera.cpp:56-58 | the per-triangle test holds exactly when some point of the closed triangle is strictly within `radius` of `pos` |
| Collision.IsPointNearPrecomputedMesh | src/Camera.cpp:54-62 | returns true iff some cached world triangle's closest point is strictly within `radius`; an empty cache gives false |
| Collision.IsInsideAABBBoundary | src/Camera.cpp:92-98 | true iff `pos` is strictly inside the box inflated by `radius` on every axis; a point on an inflated face is outside |
| Collision.IsInsideInvertedAABB | src/Camera.cpp:92-98 | with no inflation an inverted box contains nothing |
| Collision.IsInsideAABBAndContains | src/Camera.cpp:92-98 | without inflation the test implies closed containment; any positive inflation accepts every point of the closed box; more inflation never rejects a point |
| Aabb.TransformAABB | src/AABB.cpp:5-23 | every transformed corner lies in the result; each bound is attained by a transformed corner; the result is well formed even for an inverted input |
| Aabb.TransformAABBContainsImage | src/AABB.cpp:5-23 | the image of every point of the input box lies in the result, for any matrix |
| Aabb.TransformAABBTightest | src/AABB.cpp:16-21 | any box holding the eight transformed corners contains the result |
| Aabb.TransformAABBIdentity | src/AABB.cpp:6-22 | the identity matrix maps a well-formed box onto itself |
| Aabb.TransformAABBTranslation | src/AABB.cpp:6-22 | a translation by `t` shifts both bounds of a well-formed box by `t` |
| Aabb.Fit | src/AABB.cpp:16-21 | the folded min/max box encloses the points, is well formed, and each bound is attained |
| Meshes.NewMesh | src/Mesh.cpp:6-15 | the constructor keeps the vertex and index buffers, starts with no cached triangles, and its box encloses the positions with every bound attained; without vertices the box is not well formed |
| Meshes.LocalAABB | src/Mesh.cpp:10-15 | with vertices, every position lies in the box and each bound is attained; with none, the `FLT_MAX` sentinels remain |
| Meshes.EmptyMeshBoxInverted | src/Mesh.cpp:10-15 | a mesh without vertices gets an inverted box that contains no point |
| Meshes.ComputeWorldTriangles | src/Mesh.cpp:29-39 | `size(indices) / 3` triangles, triangle `k` joining the images of vertices `indices[3k]`, `indices[3k+1]` and `indices[3k+2]`; buffers and local box unchanged |
| Meshes.TrailingIndicesIgnored | src/Mesh.cpp:36-38 | appending fewer than three indices changes neither the range condition nor the triangle list |
| Meshes.CacheDeterminedByMatrix | src/Mesh.cpp:30-38 | two consistent caches for the same buffers and matrix are equal, so a second call with the same matrix reproduces the list |
| Camera.Inputs | src/Camera.cpp:103-151 | collision iff enabled and some mesh is near the tentative position; on collision the position is unchanged, height included; otherwise it becomes the tentative position with `y = 2.5`; orientation and up unchanged; the result is `Camera.Step` |
| Camera.AnyMeshNear | src/Camera.cpp:137-146 | the early-exit loop reports a collision iff some mesh is near the point; none for no meshes |
| Camera.TentativeIsSum | src/Camera.cpp:103-127 | the tentative position is the old position plus the unnormalised sum of `speed * direction` over the pressed keys |
| Camera.OppositeKeysCancel | src/Camera.cpp:103-127 | holding each key together with its opposite leaves the tentative position at the camera |
| Camera.ForwardKeyAddsStep | src/Camera.cpp:104-107 | pressing W in addition to any other keys adds exactly `speed * Orientation` |
| Camera.FreeMove | src/Camera.cpp:103-151 | with collision off or nothing near, the camera moves by the net key direction and drops to `y = 2.5` |
| Camera.StepHeight | src/Camera.cpp:147-151 | after a call the height is 2.5 or the position is the old one; with collision off it is always 2.5 |
| Camera.ShiftTakesEffectNextFrame | src/Camera.cpp:103-135 | Shift does not alter this call's tentative position; after the call the speed is 0.4 exactly when Shift is held and 0.1 exactly when it is not, which is the speed the next call uses |
| MainLoop.UpdateToggles | src/Main.cpp:226-232 | each flag flips exactly when its key is down now and was up in the previous frame; every `prev*` becomes this frame's key |
| MainLoop.ToggleBlock | src/Main.cpp:229-232 | the three `if` statements and the `prev*` assignments compute `UpdateToggles` |
| MainLoop.TogglesIndependent | src/Main.cpp:229-232 | each flag's new value depends only on its own flag, previous key and current key |
| MainLoop.RunToggleCountsEdges | src/Main.cpp:226-232 | over any run of frames a flag ends flipped exactly when its key had an odd number of rising edges, and `prev` ends as the last key state |
| MainLoop.HoldingFlipsOnce | src/Main.cpp:226-232 | holding a released key down for any number of frames flips its flag exactly once |
| MainLoop.FirstFrameStandingStill | src/Main.cpp:23-25 | with the flags initialised as at these lines, the start position `(6.62, 2.5, 4.19)` of src/Main.cpp:184 and every `prev*` key released as at src/Main.cpp:186, with collision on and no movement key held, the first frame leaves the camera where it is; the toggles after it are collision on iff F1 is up, AABBs shown iff F2 is down, flashlight on iff F is up |
| MainLoop.SchoolMatrixComposed | src/Main.cpp:159-162 | the school matrix is `scale(translate(I, (0,1,0)), (2,2,2))`, entry by entry |
| MainLoop.SchoolTransform | src/Main.cpp:159-162 | the school matrix maps a model point `p` to `2p + (0,1,0)`: the scaling acts first |
| MainLoop.ComputeAllWorldTriangles | src/Main.cpp:164-167 | after the one-time pass every mesh's cache agrees with the school matrix, buffers and boxes unchanged |
| MainLoop.RecomputeChangesNothing | src/Main.cpp:164-167 | since the matrix is never reassigned, a second pass would leave every cache as it is |
| MainLoop.Frame | src/Main.cpp:210-232 | the camera moves under the collision flag as it stood before this frame's toggle, then the toggles update |
| MainLoop.ToggleTakesEffectNextFrame | src/Main.cpp:210-232 | in the frame F1 goes down, a move blocked under the old flag stays blocked although the flag is now off |
| Linear.TransformTranslateScale | src/Main.cpp:159-162 | `scale(translate(I, t), s)` maps `p` to `s * p + t` componentwise, as glm post-multiplies |

## Left out

- Rendering and window I/O: `Mesh::Draw`, `Mesh::DrawAABB`, `Camera::updateMatrix`, `Camera::Matrix`, buffers, shaders and the GLFW window. None of them affects collision.
- Mouse look in `Camera::Inputs` (src/Camera.cpp:153-198). It is trigonometry on floats plus cursor I/O; the model keeps `Orientation` and `Up` unchanged.
- The strafe vector `normalize(cross(Orientation, Up))`. It needs a square root, so the caller supplies it as the parameter `right`.
- Key polling. `glfwGetKey` becomes the `Keys` record, which has one flag per key. GLFW reports only pressed or released, so the Shift `else if` always has one of its two arms taken.
- The unused `modelMatrix` parameter of `Inputs`. It is accepted and ignored, as in the source.
- The FOV keys P and O (src/Main.cpp:201-208). These are float adjustments that do not touch collision.
- src/ModelLoader.h is not part of this model. Meshes are taken as given.
- src/Camera.h is not part of this model. The initial `speed` is a field of `CameraState` like the others.
- Float arithmetic. All values are exact reals, so 0.2f, 0.4f, 0.1f and 2.5f are the reals 0.2, 0.4, 0.1 and 2.5, and rounding is not modelled.
- `glm::distance`'s square root. `distance(p, q) < r` is modelled as `r > 0 && Dist2(p, q) < r * r`, which is the same condition over the reals.
- The `FLT_MAX` sentinels of `transformAABB`. The running min/max starts at the first corner, which gives the same result for eight finite corners.
- Vertex attributes other than the position, and the 32-bit width of `GLuint` indices. Indices are `nat`.
- Collision.ClosestPointIsNearest: every closed-form property of `closestPointOnTriangle` requires a non-degenerate triangle (`|ab x ac|^2 > 0`). On a degenerate one the source may divide by zero: when the face branch is reached it divides by `|ab x ac|^2`, which is then 0. Other regions can still return a point, and the model does not say what.
- Collision.IsPointNearPrecomputedMesh: requires every cached triangle to be non-degenerate, for the reason above, so a mesh with a degenerate triangle is outside its contract.
- Camera.AnyMeshNear: requires every cached triangle of every mesh to be non-degenerate, for the same reason.
- Camera.Inputs: requires every cached triangle to be non-degenerate when collision is enabled. With collision off no triangle is queried and nothing is required.
- MainLoop.Frame: requires every cached triangle to be non-degenerate when collision is enabled before the toggle, as `Camera.Inputs` does.
- The default argument `radius = 0.1f` of `isInsideAABB` (src/Camera.cpp:92). `Collision.IsInsideAABB` always takes the radius as an explicit parameter.
- The default argument `radius = 0.2f` of `isPointNearPrecomputedMesh` (src/Camera.cpp:54). `Collision.IsPointNearPrecomputedMesh` always takes the radius as an explicit parameter; its one caller passes its own `radius = 0.2f` (src/Camera.cpp:137-141).
- A school model that failed to load. src/Main.cpp:115-123 catches the exception and continues with a null `schoolModel`, which src/Main.cpp:165 and src/Main.cpp:210 then dereference. The model takes a loaded school as given.
- Camera.ForwardKeyAddsStep: only the W key is stated separately. The effect of every other key follows from `Camera.TentativeIsSum`.
- Concurrency and timing. The loop is single-threaded, and frame time does not enter the move.
