/** `video::mesh`: a list of vertices with a world position and rotation. */
module Meshes {
  /** `glm::vec3`; its float components are idealised as reals. */
  datatype Vec3 = Vec3(x: real, y: real, z: real)

  const Zero: Vec3 := Vec3(0.0, 0.0, 0.0)

  /** The list that `n` successive `push_back`s of `a[0]`, `a[1]`, ... build:
      the first `n` elements of `a` in order, or none when `n` is not positive. */
  function Prefix(a: seq<Vec3>, n: int): (r: seq<Vec3>)
    requires n <= |a|
    ensures |r| == if n <= 0 then 0 else n
    ensures forall i :: 0 <= i < |r| ==> r[i] == a[i]
  {
    if n <= 0 then [] else Prefix(a, n - 1) + [a[n - 1]]
  }

  class Mesh {
    var vertices: seq<Vec3>
    var position: Vec3
    var rotation: Vec3

    /** Copies the first `vertCount` vertices of `verts`, one `push_back` at a time.
        The source reads `verts[i]` for every `i < vertCount` without a check, so
        the array must hold that many; a count that is not positive copies nothing. */
    constructor (verts: array<Vec3>, vertCount: int)
      requires vertCount <= verts.Length
      ensures vertices == Prefix(verts[..], vertCount)
      ensures position == Zero && rotation == Zero
    {
      position := Zero;
      rotation := Zero;
      vertices := [];
      new;
      var i := 0;
      while i < vertCount
        invariant 0 <= i <= (if vertCount <= 0 then 0 else vertCount)
        invariant vertices == Prefix(verts[..], i)
        invariant position == Zero && rotation == Zero
      {
        vertices := vertices + [verts[i]];
        i := i + 1;
      }
    }
  }
}
