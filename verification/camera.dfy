/**
 The position-gating half of `Camera::Inputs` (src/Camera.cpp): the pressed
 movement keys are summed into a tentative position, the collision query
 runs against every mesh, and the new position is committed all or nothing
 with its height forced to 2.5. Mouse look is not part of this module.
 */
module Camera {
  import opened Linear
  import opened Meshes
  import opened Collision

  /** The camera fields `Inputs` reads or writes. */
  datatype CameraState = CameraState(position: Vec3, orientation: Vec3, up: Vec3, speed: real)

  /** Which of the keys `Inputs` polls are held down this frame. `glfwGetKey`
      reports only pressed or released, so one flag per key suffices. */
  datatype Keys = Keys(w: bool, a: bool, s: bool, d: bool, space: bool, ctrl: bool, shift: bool)

  /** The radius of the collision query in `Inputs`. */
  const CollisionRadius: real := 0.2

  /** The height every committed position is given. */
  const EyeHeight: real := 2.5

  /** `speed` after Shift is pressed, and after it is released. */
  const RunSpeed: real := 0.4
  const WalkSpeed: real := 0.1

  /** Move `p` by `speed * dir` when `pressed`. */
  function Nudge(p: Vec3, pressed: bool, speed: real, dir: Vec3): Vec3 {
    if pressed then Add(p, Scale(speed, dir)) else p
  }

  /** The tentative position, accumulated key by key in the source's order:
      W, A, S, D, Space, Ctrl. `right` stands for the normalised
      `cross(Orientation, Up)`, which the caller supplies. */
  function Tentative(cam: CameraState, keys: Keys, right: Vec3): Vec3 {
    var p0 := cam.position;
    var p1 := Nudge(p0, keys.w, cam.speed, cam.orientation);
    var p2 := Nudge(p1, keys.a, cam.speed, Neg(right));
    var p3 := Nudge(p2, keys.s, cam.speed, Neg(cam.orientation));
    var p4 := Nudge(p3, keys.d, cam.speed, right);
    var p5 := Nudge(p4, keys.space, cam.speed, cam.up);
    Nudge(p5, keys.ctrl, cam.speed, Neg(cam.up))
  }

  /** `v` when the key is pressed, the zero vector otherwise. */
  function Pick(pressed: bool, v: Vec3): Vec3 {
    if pressed then v else Splat(0.0)
  }

  /** The net move of the pressed keys: the sum of `speed * dir` over the
      pressed keys, nothing normalised. */
  function NetMove(cam: CameraState, keys: Keys, right: Vec3): Vec3 {
    var k := cam.speed;
    Add(Add(Add(Pick(keys.w, Scale(k, cam.orientation)), Pick(keys.s, Scale(k, Neg(cam.orientation)))),
            Add(Pick(keys.d, Scale(k, right)), Pick(keys.a, Scale(k, Neg(right))))),
        Add(Pick(keys.space, Scale(k, cam.up)), Pick(keys.ctrl, Scale(k, Neg(cam.up)))))
  }

  /** The key-by-key accumulation is the old position plus the net move:
      the order in which the source tests the keys does not matter. */
  lemma TentativeIsSum(cam: CameraState, keys: Keys, right: Vec3)
    ensures Tentative(cam, keys, right) == Add(cam.position, NetMove(cam, keys, right))
  {
    var k, o, u := cam.speed, cam.orientation, cam.up;
    var p0 := cam.position;
    var p1 := Nudge(p0, keys.w, k, o);
    var p2 := Nudge(p1, keys.a, k, Neg(right));
    var p3 := Nudge(p2, keys.s, k, Neg(o));
    var p4 := Nudge(p3, keys.d, k, right);
    var p5 := Nudge(p4, keys.space, k, u);
    var m1 := NudgeIsPick(p0, keys.w, k, o);
    var m2 := NudgeIsPick(p1, keys.a, k, Neg(right));
    var m3 := NudgeIsPick(p2, keys.s, k, Neg(o));
    var m4 := NudgeIsPick(p3, keys.d, k, right);
    var m5 := NudgeIsPick(p4, keys.space, k, u);
    var m6 := NudgeIsPick(p5, keys.ctrl, k, Neg(u));
    Regroup(p0, m1, m2, m3, m4, m5, m6);
  }

  /** A nudge adds the picked step. */
  lemma NudgeIsPick(p: Vec3, pressed: bool, speed: real, dir: Vec3) returns (m: Vec3)
    ensures m == Pick(pressed, Scale(speed, dir))
    ensures Nudge(p, pressed, speed, dir) == Add(p, m)
  {
    m := Pick(pressed, Scale(speed, dir));
  }

  /** Vector addition may be regrouped: the six moves taken in the source's
      order sum to the same point as in `NetMove`'s grouping. */
  lemma Regroup(p: Vec3, m1: Vec3, m2: Vec3, m3: Vec3, m4: Vec3, m5: Vec3, m6: Vec3)
    ensures Add(Add(Add(Add(Add(Add(p, m1), m2), m3), m4), m5), m6)
         == Add(p, Add(Add(Add(m1, m3), Add(m4, m2)), Add(m5, m6)))
  {
  }

  /** A step along a direction and a step against it cancel. */
  lemma OppositeSteps(k: real, v: Vec3)
    ensures Add(Scale(k, v), Scale(k, Neg(v))) == Splat(0.0)
  {
  }

  /** Holding each movement key together with its opposite, or none at all,
      leaves the tentative position where the camera is. */
  lemma OppositeKeysCancel(cam: CameraState, keys: Keys, right: Vec3)
    requires keys.w == keys.s && keys.a == keys.d && keys.space == keys.ctrl
    ensures Tentative(cam, keys, right) == cam.position
  {
    TentativeIsSum(cam, keys, right);
    OppositeSteps(cam.speed, cam.orientation);
    OppositeSteps(cam.speed, right);
    OppositeSteps(cam.speed, cam.up);
  }

  /** Pressing W as well adds exactly `speed * Orientation`, whatever else
      is held. */
  lemma ForwardKeyAddsStep(cam: CameraState, keys: Keys, right: Vec3)
    requires !keys.w
    ensures Tentative(cam, keys.(w := true), right) == Add(Tentative(cam, keys, right), Scale(cam.speed, cam.orientation))
  {
    var k := cam.speed;
    TentativeIsSum(cam, keys, right);
    TentativeIsSum(cam, keys.(w := true), right);
    AddOneStep(cam.position, Scale(k, cam.orientation), Pick(keys.s, Scale(k, Neg(cam.orientation))),
               Add(Pick(keys.d, Scale(k, right)), Pick(keys.a, Scale(k, Neg(right)))),
               Add(Pick(keys.space, Scale(k, cam.up)), Pick(keys.ctrl, Scale(k, Neg(cam.up)))));
  }

  /** Replacing the zero vector by `f` in the first slot of a sum adds `f`. */
  lemma AddOneStep(p: Vec3, f: Vec3, b: Vec3, x: Vec3, y: Vec3)
    ensures Add(p, Add(Add(Add(f, b), x), y)) == Add(Add(p, Add(Add(Add(Splat(0.0), b), x), y)), f)
  {
  }

  /** The Shift branch: the speed for the next frame. */
  function NextSpeed(keys: Keys): (speed: real)
    ensures speed == RunSpeed <==> keys.shift
    ensures speed == WalkSpeed <==> !keys.shift
  {
    if keys.shift then RunSpeed else WalkSpeed
  }

  predicate MeshesNonDegenerate(meshes: seq<Mesh>) {
    forall i :: 0 <= i < |meshes| ==> AllNonDegenerate(meshes[i].worldTriangles)
  }

  /** Some mesh has a cached triangle within the collision radius of `p`. */
  predicate NearAnyMesh(p: Vec3, meshes: seq<Mesh>)
    requires MeshesNonDegenerate(meshes)
  {
    exists i :: 0 <= i < |meshes| && NearMesh(p, meshes[i], CollisionRadius)
  }

  /** The camera after one call of `Inputs`, as a reference: a collision is
      detected only when it is enabled and some mesh is near the tentative
      position; the commit overwrites the height and is skipped entirely on
      a collision; the speed update comes last. */
  function Step(cam: CameraState, keys: Keys, right: Vec3, meshes: seq<Mesh>, enableCollision: bool): CameraState
    requires enableCollision ==> MeshesNonDegenerate(meshes)
  {
    var next := Tentative(cam, keys, right);
    var collision := enableCollision && NearAnyMesh(next, meshes);
    var position := if collision then cam.position else next.(y := EyeHeight);
    cam.(position := position, speed := NextSpeed(keys))
  }

  /** `Camera::Inputs` without mouse look. The model matrix is accepted and
      unused, as in the source: the meshes' cached world triangles are what
      the query reads. */
  method Inputs(cam: CameraState, keys: Keys, right: Vec3, meshes: seq<Mesh>, modelMatrix: Mat4, enableCollision: bool)
    returns (r: CameraState, collision: bool)
    requires enableCollision ==> MeshesNonDegenerate(meshes)
    ensures collision <==> enableCollision && NearAnyMesh(Tentative(cam, keys, right), meshes)
    ensures collision ==> r.position == cam.position
    ensures !collision ==> r.position == Tentative(cam, keys, right).(y := EyeHeight)
    ensures r.orientation == cam.orientation && r.up == cam.up
    ensures r.speed == NextSpeed(keys)
    ensures r == Step(cam, keys, right, meshes, enableCollision)
  {
    var nextPosition := MoveByKeys(cam, keys, right);
    var speed := if keys.shift then RunSpeed else WalkSpeed;
    collision := false;
    if enableCollision {
      collision := AnyMeshNear(nextPosition, meshes);
    }
    nextPosition := nextPosition.(y := EyeHeight);
    var position := cam.position;
    if !collision {
      position := nextPosition;
    }
    r := cam.(position := position, speed := speed);
  }

  /** The key-polling block of `Inputs`: one `+=` per pressed key. */
  method MoveByKeys(cam: CameraState, keys: Keys, right: Vec3) returns (nextPosition: Vec3)
    ensures nextPosition == Tentative(cam, keys, right)
  {
    nextPosition := cam.position;
    if keys.w { nextPosition := Add(nextPosition, Scale(cam.speed, cam.orientation)); }
    if keys.a { nextPosition := Add(nextPosition, Scale(cam.speed, Neg(right))); }
    if keys.s { nextPosition := Add(nextPosition, Scale(cam.speed, Neg(cam.orientation))); }
    if keys.d { nextPosition := Add(nextPosition, Scale(cam.speed, right)); }
    if keys.space { nextPosition := Add(nextPosition, Scale(cam.speed, cam.up)); }
    if keys.ctrl { nextPosition := Add(nextPosition, Scale(cam.speed, Neg(cam.up))); }
  }

  /** The mesh loop of `Inputs`: query each mesh in order and stop at the
      first one near `p`. */
  method AnyMeshNear(p: Vec3, meshes: seq<Mesh>) returns (collision: bool)
    requires MeshesNonDegenerate(meshes)
    ensures collision <==> NearAnyMesh(p, meshes)
    ensures |meshes| == 0 ==> !collision
  {
    for i := 0 to |meshes|
      invariant forall j :: 0 <= j < i ==> !NearMesh(p, meshes[j], CollisionRadius)
    {
      var near := IsPointNearPrecomputedMesh(p, meshes[i], CollisionRadius);
      if near {
        return true;
      }
    }
    return false;
  }

  /** A blocked move keeps even the height of the old position; a free move
      always lands at the eye height, whatever the keys. */
  lemma StepHeight(cam: CameraState, keys: Keys, right: Vec3, meshes: seq<Mesh>, enableCollision: bool)
    requires enableCollision ==> MeshesNonDegenerate(meshes)
    ensures var r := Step(cam, keys, right, meshes, enableCollision);
      r.position.y == EyeHeight || r.position == cam.position
    ensures !enableCollision ==> Step(cam, keys, right, meshes, enableCollision).position.y == EyeHeight
  {
  }

  /** With collision disabled, or with no mesh near the tentative position,
      the camera moves by the net key direction, then drops to eye height. */
  lemma FreeMove(cam: CameraState, keys: Keys, right: Vec3, meshes: seq<Mesh>, enableCollision: bool)
    requires enableCollision ==> MeshesNonDegenerate(meshes)
    requires !enableCollision || !NearAnyMesh(Tentative(cam, keys, right), meshes)
    ensures Step(cam, keys, right, meshes, enableCollision).position
         == Add(cam.position, NetMove(cam, keys, right)).(y := EyeHeight)
  {
    TentativeIsSum(cam, keys, right);
  }

  /** The speed used for this frame's move is the one left by the previous
      call: the Shift key changes how far the next frame moves, not this
      one. */
  lemma ShiftTakesEffectNextFrame(cam: CameraState, keys: Keys, right: Vec3, meshes: seq<Mesh>, enableCollision: bool)
    requires enableCollision ==> MeshesNonDegenerate(meshes)
    ensures Tentative(cam, keys, right) == Tentative(cam, keys.(shift := !keys.shift), right)
    ensures Step(cam, keys, right, meshes, enableCollision).speed == RunSpeed <==> keys.shift
    ensures Step(cam, keys, right, meshes, enableCollision).speed == WalkSpeed <==> !keys.shift
  {
  }
}
