/**
 The parts of the main loop of src/Main.cpp that touch collision: the
 school model matrix, the one-time world-triangle computation under it, the
 call of `Camera::Inputs` with the current collision flag, and the
 rising-edge toggles on F1, F2 and F.
 */
module MainLoop {
  import opened Linear
  import opened Meshes
  import opened Collision
  import opened Camera

  /** The three flags and the previous key states the loop keeps between
      frames. `flashlight` is the source's `fleshlight`. */
  datatype Toggles = Toggles(
    enableCollision: bool, showAABBs: bool, flashlight: bool,
    prevF1: bool, prevF2: bool, prevF: bool)

  /** The flags' initial values and the static `prev*` keys, all released. */
  const InitialToggles: Toggles := Toggles(true, false, true, false, false, false)

  /** `if (curr && !prev) flag = !flag;` */
  function EdgeToggle(flag: bool, prev: bool, curr: bool): bool {
    if curr && !prev then !flag else flag
  }

  /** The toggle block: each flag reacts to its own key, then every `prev*`
      takes this frame's key state. */
  function UpdateToggles(t: Toggles, currF1: bool, currF2: bool, currF: bool): (r: Toggles)
    ensures r.prevF1 == currF1 && r.prevF2 == currF2 && r.prevF == currF
    ensures r.enableCollision != t.enableCollision <==> currF1 && !t.prevF1
    ensures r.showAABBs != t.showAABBs <==> currF2 && !t.prevF2
    ensures r.flashlight != t.flashlight <==> currF && !t.prevF
  {
    Toggles(EdgeToggle(t.enableCollision, t.prevF1, currF1),
            EdgeToggle(t.showAABBs, t.prevF2, currF2),
            EdgeToggle(t.flashlight, t.prevF, currF),
            currF1, currF2, currF)
  }

  /** The toggles do not interfere: each flag after the update depends only
      on its own value, its own previous key and its own current key. */
  lemma TogglesIndependent(t: Toggles, u: Toggles, c1: bool, c2: bool, c3: bool, d1: bool, d2: bool, d3: bool)
    ensures t.enableCollision == u.enableCollision && t.prevF1 == u.prevF1 && c1 == d1
      ==> UpdateToggles(t, c1, c2, c3).enableCollision == UpdateToggles(u, d1, d2, d3).enableCollision
    ensures t.showAABBs == u.showAABBs && t.prevF2 == u.prevF2 && c2 == d2
      ==> UpdateToggles(t, c1, c2, c3).showAABBs == UpdateToggles(u, d1, d2, d3).showAABBs
    ensures t.flashlight == u.flashlight && t.prevF == u.prevF && c3 == d3
      ==> UpdateToggles(t, c1, c2, c3).flashlight == UpdateToggles(u, d1, d2, d3).flashlight
  {
  }

  /** One toggle driven by a sequence of per-frame key states: the final
      flag and the final previous key. */
  function RunToggle(flag: bool, prev: bool, keys: seq<bool>): (bool, bool)
    decreases |keys|
  {
    if |keys| == 0 then (flag, prev)
    else RunToggle(EdgeToggle(flag, prev, keys[0]), keys[0], keys[1..])
  }

  /** The number of frames in which the key goes from released to pressed. */
  function RisingEdges(prev: bool, keys: seq<bool>): nat
    decreases |keys|
  {
    if |keys| == 0 then 0
    else (if keys[0] && !prev then 1 else 0) + RisingEdges(keys[0], keys[1..])
  }

  /** Over any run of frames the flag has flipped once per rising edge of
      its key: it ends changed exactly when the number of edges is odd. */
  lemma {:induction false} RunToggleCountsEdges(flag: bool, prev: bool, keys: seq<bool>)
    ensures RunToggle(flag, prev, keys).0 == (if RisingEdges(prev, keys) % 2 == 1 then !flag else flag)
    ensures |keys| > 0 ==> RunToggle(flag, prev, keys).1 == keys[|keys| - 1]
    decreases |keys|
  {
    if |keys| > 0 {
      RunToggleCountsEdges(EdgeToggle(flag, prev, keys[0]), keys[0], keys[1..]);
      if |keys| > 1 {
        assert keys[1..][|keys[1..]| - 1] == keys[|keys| - 1];
      }
    }
  }

  /** A key held down through consecutive frames has exactly one rising
      edge when it was released before, and none when it was already held. */
  lemma {:induction false} HeldKeyEdges(prev: bool, n: nat)
    requires n > 0
    ensures RisingEdges(prev, seq(n, _ => true)) == (if prev then 0 else 1)
    decreases n
  {
    var keys := seq(n, _ => true);
    if n > 1 {
      assert keys[1..] == seq(n - 1, _ => true);
      HeldKeyEdges(true, n - 1);
    } else {
      assert keys[1..] == [];
    }
  }

  /** Holding a released key down for any number of frames flips its flag
      exactly once. */
  lemma HoldingFlipsOnce(flag: bool, n: nat)
    requires n > 0
    ensures RunToggle(flag, false, seq(n, _ => true)).0 == !flag
  {
    RunToggleCountsEdges(flag, false, seq(n, _ => true));
    HeldKeyEdges(false, n);
  }

  /** The inputs of one iteration of the loop that the model keeps. */
  datatype FrameInput = FrameInput(keys: Keys, right: Vec3, f1: bool, f2: bool, f: bool)

  /** The model matrix of the school, entry by entry (rows first). */
  const SchoolModelMatrix: Mat4 :=
    Mat4(Vec4(2.0, 0.0, 0.0, 0.0), Vec4(0.0, 2.0, 0.0, 1.0),
         Vec4(0.0, 0.0, 2.0, 0.0), Vec4(0.0, 0.0, 0.0, 1.0))

  /** The school's translation. */
  const SchoolLift: Vec3 := Vec3(0.0, 1.0, 0.0)

  /** The entries above are what the loop's setup computes:
      `translate(I, (0, 1, 0))`, then `scale(..., (2, 2, 2))`. */
  lemma SchoolMatrixComposed()
    ensures SchoolModelMatrix == ScaleBy(Translate(Identity, SchoolLift), Splat(2.0))
  {
    TranslateThenScale(SchoolLift, Splat(2.0));
  }

  /** The camera's starting position. */
  const StartPosition: Vec3 := Vec3(6.62, 2.5, 4.19)

  /** glm post-multiplies, so the scaling acts first and the lift second:
      a model point `p` lands at `2 p + (0, 1, 0)`. */
  lemma SchoolTransform(p: Vec3)
    ensures Transform(SchoolModelMatrix, p) == Add(Scale(2.0, p), SchoolLift)
  {
    SchoolMatrixComposed();
    TransformUniform(SchoolLift, 2.0, p);
  }

  /** Every mesh's index buffer addresses its vertices. */
  predicate AllIndicesInRange(meshes: seq<Mesh>) {
    forall i :: 0 <= i < |meshes| ==> IndicesInRange(meshes[i].vertices, meshes[i].indices)
  }

  /** Every mesh's cache agrees with `model`. */
  predicate AllCachesConsistent(meshes: seq<Mesh>, model: Mat4) {
    forall i :: 0 <= i < |meshes| ==> CacheConsistent(meshes[i], model)
  }

  /** The loop before the main loop: each mesh of the school computes its
      world triangles under the school matrix. */
  method ComputeAllWorldTriangles(meshes: seq<Mesh>, model: Mat4) returns (r: seq<Mesh>)
    requires AllIndicesInRange(meshes)
    ensures |r| == |meshes|
    ensures forall i :: 0 <= i < |r| ==>
              r[i].vertices == meshes[i].vertices && r[i].indices == meshes[i].indices
              && r[i].localAABB == meshes[i].localAABB
    ensures AllCachesConsistent(r, model)
  {
    r := [];
    for i := 0 to |meshes|
      invariant |r| == i
      invariant forall j :: 0 <= j < i ==>
                  r[j].vertices == meshes[j].vertices && r[j].indices == meshes[j].indices
                  && r[j].localAABB == meshes[j].localAABB
      invariant AllCachesConsistent(r, model)
    {
      var m := ComputeWorldTriangles(meshes[i], model);
      r := r + [m];
    }
  }

  /** Running the computation again with the same matrix changes nothing:
      the caches the loop leaves are a function of the buffers and the
      matrix, which the main loop never reassigns. */
  lemma RecomputeChangesNothing(meshes: seq<Mesh>, again: seq<Mesh>, model: Mat4)
    requires |again| == |meshes|
    requires forall i :: 0 <= i < |meshes| ==>
               again[i].vertices == meshes[i].vertices && again[i].indices == meshes[i].indices
               && again[i].localAABB == meshes[i].localAABB
    requires AllCachesConsistent(meshes, model) && AllCachesConsistent(again, model)
    ensures again == meshes
  {
    forall i | 0 <= i < |meshes|
      ensures again[i] == meshes[i]
    {
      CacheDeterminedByMatrix(again[i], meshes[i], model);
    }
  }

  /** The first frame from the start position, with no movement key held:
      the camera starts at eye height, so it stays exactly where it is
      whether or not a mesh is near, and the flags start from their
      initial values. */
  lemma FirstFrameStandingStill(cam: CameraState, input: FrameInput, meshes: seq<Mesh>)
    requires InitialToggles.enableCollision ==> MeshesNonDegenerate(meshes)
    requires cam.position == StartPosition
    requires var k := input.keys; !k.w && !k.a && !k.s && !k.d && !k.space && !k.ctrl
    ensures Step(cam, input.keys, input.right, meshes, InitialToggles.enableCollision).position == StartPosition
    ensures var t := UpdateToggles(InitialToggles, input.f1, input.f2, input.f);
      t.enableCollision == !input.f1 && t.showAABBs == input.f2 && t.flashlight == !input.f
  {
    OppositeKeysCancel(cam, input.keys, input.right);
  }

  /** One iteration of the main loop, as far as the model goes: the camera
      moves with the collision flag as it stood at the start of the frame,
      and only afterwards do the toggles react to F1, F2 and F. A press of
      F1 therefore changes collision handling from the next frame on. */
  method Frame(cam: CameraState, t: Toggles, input: FrameInput, meshes: seq<Mesh>)
    returns (cam': CameraState, t': Toggles)
    requires t.enableCollision ==> MeshesNonDegenerate(meshes)
    ensures cam' == Step(cam, input.keys, input.right, meshes, t.enableCollision)
    ensures t' == UpdateToggles(t, input.f1, input.f2, input.f)
  {
    var collision;
    cam', collision := Inputs(cam, input.keys, input.right, meshes, SchoolModelMatrix, t.enableCollision);
    t' := ToggleBlock(t, input.f1, input.f2, input.f);
  }

  /** The statements of the toggle block, in the source's order. */
  method ToggleBlock(t: Toggles, currF1: bool, currF2: bool, currF: bool) returns (t': Toggles)
    ensures t' == UpdateToggles(t, currF1, currF2, currF)
  {
    var enableCollision, showAABBs, flashlight := t.enableCollision, t.showAABBs, t.flashlight;
    if currF1 && !t.prevF1 { enableCollision := !enableCollision; }
    if currF2 && !t.prevF2 { showAABBs := !showAABBs; }
    if currF && !t.prevF { flashlight := !flashlight; }
    t' := Toggles(enableCollision, showAABBs, flashlight, currF1, currF2, currF);
  }

  /** A frame in which F1 goes down still moves the camera under the old
      flag: with collision on before the press, a blocked move stays
      blocked in that frame although the flag is now off. */
  lemma ToggleTakesEffectNextFrame(cam: CameraState, t: Toggles, input: FrameInput, meshes: seq<Mesh>)
    requires MeshesNonDegenerate(meshes)
    requires t.enableCollision && input.f1 && !t.prevF1
    requires NearAnyMesh(Tentative(cam, input.keys, input.right), meshes)
    ensures !UpdateToggles(t, input.f1, input.f2, input.f).enableCollision
    ensures Step(cam, input.keys, input.right, meshes, t.enableCollision).position == cam.position
  {
  }
}
