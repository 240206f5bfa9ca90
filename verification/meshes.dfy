/**
 The collision-relevant part of a mesh (src/Mesh.h, src/Mesh.cpp): its
 vertex and index buffers, the local-space bounding box computed once by the
 constructor, and the cache of world-space triangles rebuilt by
 `ComputeWorldTriangles`.
 */
module Meshes {
  import opened Linear
  import opened Aabb

  /** A vertex buffer entry. Only the position takes part in collision; the
      normal, colour and texture coordinate feed the renderer alone. */
  datatype Vertex = Vertex(position: Vec3)

  datatype Triangle = Triangle(a: Vec3, b: Vec3, c: Vec3)

  /** GPU handles and textures are not part of the model. */
  datatype Mesh = Mesh(
    vertices: seq<Vertex>,
    indices: seq<nat>,
    localAABB: AABB,
    worldTriangles: seq<Triangle>)

  /** `FLT_MAX`, the largest finite single-precision value. */
  const FltMax: real := 340282346638528859811704183484516925440.0

  function Positions(vertices: seq<Vertex>): (ps: seq<Vec3>)
    ensures |ps| == |vertices|
    ensures forall i :: 0 <= i < |vertices| ==> ps[i] == vertices[i].position
  {
    seq(|vertices|, i requires 0 <= i < |vertices| => vertices[i].position)
  }

  /** The box the constructor folds over the vertex positions, starting from
      the sentinels `min = FLT_MAX`, `max = -FLT_MAX`. With at least one
      vertex the first one replaces both sentinels; with none they stay. */
  function LocalAABB(vertices: seq<Vertex>): (box: AABB)
    ensures |vertices| > 0 ==> Encloses(box, Positions(vertices)) && Attained(box, Positions(vertices))
    ensures |vertices| > 0 ==> WellFormed(box)
    ensures |vertices| == 0 ==> box == AABB(Splat(FltMax), Splat(-FltMax))
  {
    if |vertices| == 0 then AABB(Splat(FltMax), Splat(-FltMax))
    else Fit(Positions(vertices))
  }

  /** A mesh with no vertices ends up with an inverted local box. */
  lemma EmptyMeshBoxInverted()
    ensures !WellFormed(LocalAABB([]))
    ensures forall p :: !Contains(LocalAABB([]), p)
  {
  }

  /** The constructor: buffers are copied, the local box is computed and the
      world-triangle cache starts empty. */
  function NewMesh(vertices: seq<Vertex>, indices: seq<nat>): (m: Mesh)
    ensures m.vertices == vertices && m.indices == indices && m.worldTriangles == []
    ensures |vertices| > 0 ==> Encloses(m.localAABB, Positions(vertices)) && Attained(m.localAABB, Positions(vertices))
    ensures |vertices| == 0 ==> !WellFormed(m.localAABB)
  {
    Mesh(vertices, indices, LocalAABB(vertices), [])
  }

  /** Only the indices of complete triples are read, so only those must
      address a vertex; a trailing partial triple may hold anything. */
  predicate IndicesInRange(vertices: seq<Vertex>, indices: seq<nat>) {
    forall i :: 0 <= i < |indices| / 3 * 3 ==> indices[i] < |vertices|
  }

  /** The world-space image of vertex `j` under `model`. */
  function WorldVertex(vertices: seq<Vertex>, model: Mat4, j: nat): Vec3
    requires j < |vertices|
  {
    Transform(model, vertices[j].position)
  }

  /** `tris` is exactly the list of world-space triangles that the index
      buffer describes: one per complete triple, in order, triangle `k`
      joining the images of vertices `indices[3k]`, `indices[3k+1]` and
      `indices[3k+2]`. */
  predicate TrianglesOf(vertices: seq<Vertex>, indices: seq<nat>, model: Mat4, tris: seq<Triangle>)
    requires IndicesInRange(vertices, indices)
  {
    && |tris| == |indices| / 3
    && forall k :: 0 <= k < |tris| ==>
         tris[k] == Triangle(WorldVertex(vertices, model, indices[3 * k]),
                             WorldVertex(vertices, model, indices[3 * k + 1]),
                             WorldVertex(vertices, model, indices[3 * k + 2]))
  }

  /** The cache of `mesh` agrees with `model`. */
  predicate CacheConsistent(mesh: Mesh, model: Mat4) {
    && IndicesInRange(mesh.vertices, mesh.indices)
    && TrianglesOf(mesh.vertices, mesh.indices, model, mesh.worldTriangles)
  }

  /** `Mesh::ComputeWorldTriangles`: clear the cache, transform every vertex,
      then walk the index buffer three at a time while a full triple
      remains. Buffers and the local box are left as they were. */
  method ComputeWorldTriangles(mesh: Mesh, model: Mat4) returns (r: Mesh)
    requires IndicesInRange(mesh.vertices, mesh.indices)
    ensures r.vertices == mesh.vertices && r.indices == mesh.indices && r.localAABB == mesh.localAABB
    ensures |r.worldTriangles| == |mesh.indices| / 3
    ensures forall k :: 0 <= k < |r.worldTriangles| ==>
              r.worldTriangles[k] == Triangle(WorldVertex(mesh.vertices, model, mesh.indices[3 * k]),
                                              WorldVertex(mesh.vertices, model, mesh.indices[3 * k + 1]),
                                              WorldVertex(mesh.vertices, model, mesh.indices[3 * k + 2]))
    ensures CacheConsistent(r, model)
  {
    var vertices := mesh.vertices;
    var indices := mesh.indices;
    var worldVerts: seq<Vec3> := [];
    for j := 0 to |vertices|
      invariant |worldVerts| == j
      invariant forall i :: 0 <= i < j ==> worldVerts[i] == WorldVertex(vertices, model, i)
    {
      worldVerts := worldVerts + [Transform(model, vertices[j].position)];
    }
    var tris: seq<Triangle> := [];
    var i := 0;
    while i + 2 < |indices|
      invariant i == 3 * |tris| && i <= |indices|
      invariant forall k :: 0 <= k < |tris| ==>
                  tris[k] == Triangle(WorldVertex(vertices, model, indices[3 * k]),
                                      WorldVertex(vertices, model, indices[3 * k + 1]),
                                      WorldVertex(vertices, model, indices[3 * k + 2]))
    {
      assert i + 3 <= |indices| / 3 * 3;
      tris := tris + [Triangle(worldVerts[indices[i]], worldVerts[indices[i + 1]], worldVerts[indices[i + 2]])];
      i := i + 3;
    }
    r := mesh.(worldTriangles := tris);
  }

  /** Indices that do not complete a triple change nothing: the triangles of
      `indices + extra` are those of `indices`. */
  lemma TrailingIndicesIgnored(vertices: seq<Vertex>, indices: seq<nat>, extra: seq<nat>, model: Mat4, tris: seq<Triangle>)
    requires |indices| % 3 == 0 && |extra| < 3
    requires IndicesInRange(vertices, indices)
    ensures IndicesInRange(vertices, indices + extra)
    ensures TrianglesOf(vertices, indices + extra, model, tris) <==> TrianglesOf(vertices, indices, model, tris)
  {
    var all := indices + extra;
    assert |all| / 3 == |indices| / 3;
    assert forall i :: 0 <= i < |indices| ==> all[i] == indices[i];
  }

  /** The cache is a function of the buffers and the matrix alone: two
      consistent caches for the same matrix are equal, so recomputing with an
      unchanged matrix reproduces the list. */
  lemma CacheDeterminedByMatrix(m1: Mesh, m2: Mesh, model: Mat4)
    requires m1.vertices == m2.vertices && m1.indices == m2.indices
    requires CacheConsistent(m1, model) && CacheConsistent(m2, model)
    ensures m1.worldTriangles == m2.worldTriangles
  {
  }
}
