/** The root copy's `load_msh_file` after decoding (importer.py): the
    optional welding, the face rebuild, the custom normals and texture
    coordinates per face corner, and the vertex groups. */
module MeshLoader {
  import opened Base
  import opened Bytes
  import opened MeshCommon
  import MeshDecoder
  import Welder
  import Faces
  import VertexGroups
  import OrderedMap
  import Skin

  /** The mesh Blender receives: its vertices, its triangles, and one
      normal and one texture coordinate per triangle corner. */
  datatype Surface = Surface(vertices: seq<MeshDecoder.Vertex>, faces: seq<Face>,
                             cornerNormals: seq<seq<nat>>, cornerUvs: seq<Uv>)

  /** Every corner names a vertex, and there are three normals and three
      texture coordinates per triangle. */
  predicate Consistent(s: Surface) {
    && Faces.Within(s.faces, |s.vertices|)
    && |s.cornerNormals| == |s.cornerUvs| == 3 * |s.faces|
  }

  /** What a decoded mesh promises about its triangle soup. */
  predicate IsSoup(mesh: MeshDecoder.Mesh) {
    |mesh.vertices| == |mesh.uvs| == 3 * |mesh.faces| && mesh.faces == SoupFaces(|mesh.faces|)
  }

  /** Line 274: without welding every corner keeps its own vertex and its
      own normal. */
  function Soup(mesh: MeshDecoder.Mesh): (s: Surface)
    requires IsSoup(mesh)
    ensures Consistent(s)
    ensures s.vertices == mesh.vertices && s.faces == mesh.faces && s.cornerUvs == mesh.uvs
    ensures s.cornerNormals == Faces.NormalTable(mesh.vertices)
  {
    Faces.SoupNormals(mesh.vertices, |mesh.faces|);
    Surface(mesh.vertices, mesh.faces, Faces.CornerNormalsOf(mesh.vertices, mesh.faces), mesh.uvs)
  }

  /** `[vertex_list[i] for i in merged_vert_ids]`. */
  function Pick<T>(items: seq<T>, indices: seq<nat>): (r: seq<T>)
    requires forall j :: 0 <= j < |indices| ==> indices[j] < |items|
    ensures |r| == |indices| && forall j :: 0 <= j < |indices| ==> r[j] == items[indices[j]]
  {
    if |indices| == 0 then [] else [items[indices[0]]] + Pick(items, indices[1..])
  }

  /** The input the face rebuild works on. */
  function RebuildInput(mesh: MeshDecoder.Mesh, w: Welder.Welding): (inp: Faces.Input)
    requires IsSoup(mesh) && |w.idx2merged| == |mesh.vertices|
    ensures Faces.WellFormed(inp)
  {
    Faces.SoupWithin(|mesh.faces|, |mesh.vertices|);
    Faces.Input(mesh.faces, mesh.uvs, Faces.NormalTable(mesh.vertices), w.idx2merged)
  }

  /** Lines 216-272: weld, rebuild the faces, keep the merged vertices. */
  function Welded(mesh: MeshDecoder.Mesh, tol: Welder.Tolerances): (s: Surface)
    requires IsSoup(mesh)
    ensures Consistent(s)
  {
    var w := Welder.Weld(mesh.vertices, tol);
    var out := Faces.Rebuild(RebuildInput(mesh, w));
    var vertices := Pick(mesh.vertices, w.merged);
    assert Faces.Within(out.faces, |vertices|) by {
      forall k | 0 <= k < |out.faces|
        ensures out.faces[k].a < |vertices| && out.faces[k].b < |vertices| && out.faces[k].c < |vertices|
      {
        assert Faces.Kept(RebuildInput(mesh, w), out, k);
      }
    }
    Surface(vertices, out.faces, Faces.Flatten(out.normals), Faces.Flatten(out.uvs))
  }

  /** Every corner of a welded triangle is the vertex that represents the
      original corner, and either is that corner or passed the merge test
      against it. */
  lemma {:induction false} WeldedCorners(mesh: MeshDecoder.Mesh, tol: Welder.Tolerances, k: nat)
    requires IsSoup(mesh) && k < |Welded(mesh, tol).faces|
    ensures var w := Welder.Weld(mesh.vertices, tol);
            var out := Faces.Rebuild(RebuildInput(mesh, w));
            var original := mesh.faces[out.sources[k]];
            && Welded(mesh, tol).faces[k] == Faces.MapCorners(original, w.idx2merged)
            && w.merged[Welded(mesh, tol).faces[k].a] == Welder.Rep(w.idx2merged, w.merged, original.a)
            && Welder.Compatible(mesh.vertices, tol, w.merged[Welded(mesh, tol).faces[k].a], original.a)
            && Welded(mesh, tol).vertices[Welded(mesh, tol).faces[k].a] == mesh.vertices[w.merged[Welded(mesh, tol).faces[k].a]]
  {
    var w := Welder.Weld(mesh.vertices, tol);
    var out := Faces.Rebuild(RebuildInput(mesh, w));
    assert Faces.Kept(RebuildInput(mesh, w), out, k);
  }

  /** Lines 288-292: every skinning pair of every vertex of the final list,
      in order, looked up by bone name; the zero-weight default slots
      included. */
  function Assignments(boneNames: seq<Bytes>, vertices: seq<MeshDecoder.Vertex>, first: nat)
    : (r: Result<seq<VertexGroups.Assignment>>)
    ensures r.Ok? <==> forall i :: 0 <= i < |vertices| ==>
              VertexGroups.AssignVertex(boneNames, first + i, Pairs(vertices[i]), false).Ok?
    ensures r.Ok? ==> forall a :: a in r.value ==> first <= a.vertex < first + |vertices| && a.bone in boneNames
  {
    if |vertices| == 0 then Ok([])
    else
      var head :- VertexGroups.AssignVertex(boneNames, first, Pairs(vertices[0]), false);
      var tail :- Assignments(boneNames, vertices[1..], first + 1);
      assert forall i :: 1 <= i < |vertices| ==> vertices[i] == vertices[1..][i - 1];
      Ok(head + tail)
  }

  /** `zip(v.bone_ids, v.bone_weights)`. */
  function Pairs(v: MeshDecoder.Vertex): seq<Skin.Pair> {
    Skin.Zip(v.boneIds, v.boneWeights)
  }

  /** Lines 294-300: one group per key of `created_bones`, in that order,
      holding that bone's pairs, or empty. */
  function Groups(created: seq<Bytes>, collected: OrderedMap.Dict<Bytes, seq<(nat, nat)>>)
    : (gs: seq<(Bytes, OrderedMap.Dict<nat, nat>)>)
    ensures |gs| == |created|
    ensures forall i :: 0 <= i < |created| ==> gs[i].0 == created[i]
    ensures forall i :: 0 <= i < |created| ==> gs[i].1 == VertexGroups.Members(OrderedMap.GetOr(collected, created[i], []))
  {
    if |created| == 0 then []
    else [(created[0], VertexGroups.Members(OrderedMap.GetOr(collected, created[0], [])))] + Groups(created[1..], collected)
  }

  /** Line 216: weld when automatic merging is on. */
  function Build(mesh: MeshDecoder.Mesh, weld: Option<Welder.Tolerances>): (s: Surface)
    requires IsSoup(mesh)
    ensures Consistent(s)
  {
    match weld
    case None => Soup(mesh)
    case Some(tol) => Welded(mesh, tol)
  }

  /** Everything `load_msh_file` gives Blender, with the Blender calls left
      out. */
  datatype Loaded = Loaded(
    newBones: seq<MeshDecoder.Bone>,
    bbox: Option<MeshDecoder.BBox>,
    surface: Surface,
    groups: seq<(Bytes, OrderedMap.Dict<nat, nat>)>)

  /** Lines 217-219: `KDTree.insert` takes only 3D points, and raises
      ValueError for the first position of any other width.  A position is
      3 floats or, when the layout gives it 4, the 4D product with the
      global matrix. */
  predicate KdPoints(vertices: seq<MeshDecoder.Vertex>) {
    forall i :: 0 <= i < |vertices| ==> |vertices[i].position| == 3
  }

  /** `load_msh_file(path, material, parent_bone)` with automatic merging
      on (`weld` holds the tolerances) or off.  With merging on, every
      position is put into the KD-tree before anything else happens. */
  function Load(data: Bytes, parent: Option<Bytes>, weld: Option<Welder.Tolerances>): (r: Result<Loaded>)
    ensures MeshDecoder.DecodeMesh(data, parent).Err? ==> r == Err(MeshDecoder.DecodeMesh(data, parent).fault)
    ensures (MeshDecoder.DecodeMesh(data, parent).Ok? && weld.Some?
             && !KdPoints(MeshDecoder.DecodeMesh(data, parent).value.vertices)) ==> r == Err(BadVectorSize)
    ensures r.Ok? && weld.Some? ==> KdPoints(MeshDecoder.DecodeMesh(data, parent).value.vertices)
    ensures r.Ok? ==> Consistent(r.value.surface)
    ensures r.Ok? ==> var mesh := MeshDecoder.DecodeMesh(data, parent).value;
            && r.value.newBones == mesh.newBones
            && |r.value.groups| == |OrderedMap.Keys(mesh.createdBones)|
            && (forall i :: 0 <= i < |r.value.groups| ==> r.value.groups[i].0 == OrderedMap.Keys(mesh.createdBones)[i])
    ensures r.Ok? && weld.None? ==> r.value.surface == Soup(MeshDecoder.DecodeMesh(data, parent).value)
  {
    var mesh :- MeshDecoder.DecodeMesh(data, parent);
    if weld.Some? && !KdPoints(mesh.vertices) then Err(BadVectorSize) else
    var surface := Build(mesh, weld);
    var made :- Assignments(mesh.boneNames, surface.vertices, 0);
    var groups := Groups(OrderedMap.Keys(mesh.createdBones), VertexGroups.Collect(made));
    Ok(Loaded(mesh.newBones, mesh.bbox, surface, groups))
  }

  /** The weights a group ends up with: a vertex is in the group of bone
      `b` exactly when some skinning pair of it names `b`, with the weight of
      the last such pair. */
  lemma {:induction false} GroupWeights(created: seq<Bytes>, xs: seq<VertexGroups.Assignment>, i: nat, v: nat)
    requires i < |created|
    ensures OrderedMap.Get(Groups(created, VertexGroups.Collect(xs))[i].1, v)
            == OrderedMap.LastValue(VertexGroups.WeightsFor(xs, created[i]), v)
  {
    VertexGroups.CollectMeaning(xs);
    var info := OrderedMap.GetOr(VertexGroups.Collect(xs), created[i], []);
    if created[i] !in VertexGroups.Bones(xs) {
      VertexGroups.WeightsForAbsent(xs, created[i]);
    }
    assert info == VertexGroups.WeightsFor(xs, created[i]);
    VertexGroups.MembersMeaning(info);
  }

  /** Every vertex carries the four default slots, whose index 0 looks up
      `bone_names[0]`: a mesh with vertices but no bones cannot be loaded.
      The lookup fails unless the KD-tree has already refused a position. */
  lemma {:induction false} NoBonesFails(data: Bytes, parent: Option<Bytes>, weld: Option<Welder.Tolerances>)
    requires MeshDecoder.DecodeMesh(data, parent).Ok?
    requires |MeshDecoder.DecodeMesh(data, parent).value.boneNames| == 0
    requires |MeshDecoder.DecodeMesh(data, parent).value.vertices| > 0
    ensures Load(data, parent, weld)
            == Err(if weld.Some? && !KdPoints(MeshDecoder.DecodeMesh(data, parent).value.vertices)
                   then BadVectorSize else IndexOutOfRange)
  {
    var mesh := MeshDecoder.DecodeMesh(data, parent).value;
    BuildKeepsFirst(mesh, weld);
    FirstVertexFails(mesh.boneNames, Build(mesh, weld).vertices);
  }

  /** Vertex 0 is always kept, as the first vertex. */
  lemma {:induction false} BuildKeepsFirst(mesh: MeshDecoder.Mesh, weld: Option<Welder.Tolerances>)
    requires IsSoup(mesh) && |mesh.vertices| > 0
    ensures |Build(mesh, weld).vertices| > 0 && Build(mesh, weld).vertices[0] == mesh.vertices[0]
  {
    match weld
    case None =>
    case Some(tol) =>
      var w := Welder.Weld(mesh.vertices, tol);
      assert Welder.Rep(w.idx2merged, w.merged, 0) == 0;
      Welder.IncreasingAtLeastIndex(w.merged, |w.merged|);
      assert w.merged[0] <= w.merged[w.idx2merged[0]];
  }

  /** With no bones, the first vertex's first default slot fails the
      lookup. */
  lemma {:induction false} FirstVertexFails(boneNames: seq<Bytes>, vertices: seq<MeshDecoder.Vertex>)
    requires |boneNames| == 0 && |vertices| > 0 && MeshDecoder.Shaped(vertices[0])
    ensures Assignments(boneNames, vertices, 0) == Err(IndexOutOfRange)
  {
    var v := vertices[0];
    assert v.boneIds[0] == 0 by { assert v.boneIds[..4][0] == v.boneIds[0]; }
    var pairs := Pairs(v);
    assert pairs[0].0 == 0;
    VertexGroups.BoneNameOfZero(boneNames, 0);
  }
}
