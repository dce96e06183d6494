/** The index structure of the generated star: a ring of alternating outer and
    inner vertices around one centre vertex, closed by a triangle fan, and the
    validate-then-build order of a rebuild. Vertex coordinates (cosine and sine
    of the ring angle) and the library's extrusion are not part of the model;
    a vertex records its ring position and the radius it is placed at. */
module Mesh {
  import opened Wrappers
  import opened Params

  datatype Vertex = Ring(index: nat, radius: real) | Center

  /** A triangle given by three vertex indices. */
  datatype Face = Face(a: nat, b: nat, c: nat)

  /** A built star: the fan, plus the extrusion height when the star was
      extruded into a solid. */
  datatype Mesh = Mesh(verts: seq<Vertex>, faces: seq<Face>, extrusion: Option<real>)

  const EmptyMesh: Mesh := Mesh([], [], None)

  /** The fan of a ring with `count` vertices and centre index `count`. */
  predicate IsFan(m: Mesh, count: nat, outerR: real, innerR: real) {
    && |m.verts| == count + 1
    && |m.faces| == count
    && m.verts[count] == Center
    && (forall i :: 0 <= i < count ==>
          m.verts[i] == Ring(i, if i % 2 == 0 then outerR else innerR))
    && (forall i :: 0 <= i < count ==> m.faces[i] == Face(count, i, (i + 1) % count))
  }

  /** Builds the ring, then the centre, then one triangle per ring edge. */
  method BuildStar(spikes: int, outerR: real, innerR: real) returns (m: Mesh)
    requires spikes >= 1
    ensures IsFan(m, 2 * spikes, outerR, innerR)
    ensures m.extrusion == None
  {
    var count := spikes * 2;
    var verts: seq<Vertex> := [];
    var i := 0;
    while i < count
      invariant 0 <= i <= count
      invariant |verts| == i
      invariant forall k :: 0 <= k < i ==> verts[k] == Ring(k, if k % 2 == 0 then outerR else innerR)
    {
      var r := if i % 2 == 0 then outerR else innerR;
      verts := verts + [Ring(i, r)];
      i := i + 1;
    }
    verts := verts + [Center];
    var faces: seq<Face> := [];
    i := 0;
    while i < count
      invariant 0 <= i <= count
      invariant |faces| == i
      invariant forall k :: 0 <= k < i ==> faces[k] == Face(count, k, (k + 1) % count)
    {
      faces := faces + [Face(count, i, (i + 1) % count)];
      i := i + 1;
    }
    m := Mesh(verts, faces, None);
  }

  /** Whether ring vertex `v` is a corner of face `f` besides the centre. */
  predicate OnFace(f: Face, v: nat) {
    f.b == v || f.c == v
  }

  /** The ring index before `v`, wrapping around. */
  function Prev(v: nat, count: nat): nat
    requires v < count
  {
    if v == 0 then count - 1 else v - 1
  }

  lemma FaceCorners(count: nat, i: nat, v: nat)
    requires count >= 2 && i < count && v < count
    ensures OnFace(Face(count, i, (i + 1) % count), v) <==> (i == v || i == Prev(v, count))
  {
    if i == count - 1 {
      assert (i + 1) % count == 0;
    } else {
      assert (i + 1) % count == i + 1;
    }
  }

  /** Every face is a triangle on the centre and two ring vertices, and each
      ring vertex lies on exactly the two faces of the ring edges it ends:
      the fan closes around the centre. */
  lemma FanIsClosed(m: Mesh, count: nat, outerR: real, innerR: real)
    requires count >= 2 && IsFan(m, count, outerR, innerR)
    ensures forall i :: 0 <= i < count ==>
      m.faces[i].a == count && m.faces[i].b < count && m.faces[i].c < count
    ensures forall v, i :: 0 <= v < count && 0 <= i < count ==>
      (OnFace(m.faces[i], v) <==> (i == v || i == Prev(v, count)))
  {
    forall v, i | 0 <= v < count && 0 <= i < count
      ensures OnFace(m.faces[i], v) <==> (i == v || i == Prev(v, count))
    {
      FaceCorners(count, i, v);
    }
  }

  /** `rebuild_star_mesh`: validation first, and on failure the object's
      current mesh is left as it was; otherwise the fan is built at the scaled
      radii and extruded only for a 3D star with positive scaled thickness. */
  method RebuildStarMesh(current: Mesh, p: Params) returns (mesh: Mesh, error: Option<string>)
    ensures error.Some? <==> !IsValid(p)
    ensures error.Some? ==> ValidateParams(p) == Invalid(error.value) && mesh == current
    ensures error.None? ==> IsFan(mesh, 2 * p.spikes, p.outer * p.scale, p.inner * p.scale)
    ensures error.None? ==>
      mesh.extrusion == (if p.starType == Star3D && p.thickness * p.scale > 0.0
                         then Some(p.thickness * p.scale) else None)
  {
    match ValidateParams(p)
    case Invalid(msg) =>
      return current, Some(msg);
    case Valid =>
      var built := BuildStar(p.spikes, p.outer * p.scale, p.inner * p.scale);
      var thick := p.thickness * p.scale;
      if p.starType == Star3D && thick > 0.0 {
        built := built.(extrusion := Some(thick));
      }
      return built, None;
  }
}
