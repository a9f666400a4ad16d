/** The legacy copy's `load_msh_file` (blender_gladius/importer.py).

    It reads the same grammar as the root copy with three differences:
    every file bone becomes a new bone (none stands for the parent bone),
    the record after the second metadata block is a string and 11 floats,
    and every vertex attribute is required.  Vertex groups are built while
    the vertices are read, from the pairs with a positive weight only, and
    there is no welding. */
module LegacyMesh {
  import opened Base
  import opened Bytes
  import opened Cursor
  import opened MeshCommon
  import MeshDecoder
  import VertexGroups
  import OrderedMap
  import Skin
  import Float32

  /** Lines 150-152: what follows the second metadata block when its tag
      is 2. */
  datatype Extra = Extra(name: Bytes, data: seq<nat>)

  function ReadExtra(s: Bytes): (r: Result<Parsed<Extra>>)
    ensures r.Ok? ==> |r.value.value.data| == 11
  {
    var name :- ReadStr(s);
    ReadExtraFields(name.value, name.rest)
  }

  /** The 11 floats after the name, 44 bytes. */
  function ReadExtraFields(name: Bytes, t: Bytes): (r: Result<Parsed<Extra>>)
    ensures r.Ok? <==> |t| >= 44
    ensures r.Err? ==> r.fault == Truncated
    ensures r.Ok? ==> r.value.rest == t[44..] && |r.value.value.data| == 11
  {
    assert Size(Floats(11)) == 44;
    var data :- ReadStruct(Floats(11), t);
    Ok(Parsed(Extra(name, data.value), data.rest))
  }

  function ReadOptionalExtra(s: Bytes, tag: nat): (r: Result<Parsed<Option<Extra>>>)
    ensures tag != 2 ==> r == Ok(Parsed(None, s))
    ensures tag == 2 ==> (r.Ok? <==> ReadExtra(s).Ok?)
    ensures tag == 2 && r.Ok? ==> r.value.rest == ReadExtra(s).value.rest
  {
    if tag != 2 then Ok(Parsed(None, s))
    else
      var extra :- ReadExtra(s);
      Ok(Parsed(Some(extra.value), extra.rest))
  }

  /** The legacy record takes the same bytes as the root copy's bounding
      box: a string and 3 + 1 + 4 + 3 floats. */
  lemma {:induction false} ExtraLikeBBox(s: Bytes)
    ensures ReadExtra(s).Ok? <==> MeshDecoder.ReadBBox(s).Ok?
    ensures ReadExtra(s).Ok? ==> ReadExtra(s).value.rest == MeshDecoder.ReadBBox(s).value.rest
    ensures ReadExtra(s).Err? ==> ReadExtra(s).fault == MeshDecoder.ReadBBox(s).fault
  {
  }

  lemma {:induction false} OptionalAgree(s: Bytes, tag: nat)
    ensures ReadOptionalExtra(s, tag).Ok? <==> MeshDecoder.ReadOptionalBBox(s, tag).Ok?
    ensures ReadOptionalExtra(s, tag).Ok? ==>
              ReadOptionalExtra(s, tag).value.rest == MeshDecoder.ReadOptionalBBox(s, tag).value.rest
    ensures ReadOptionalExtra(s, tag).Err? ==>
              ReadOptionalExtra(s, tag).fault == MeshDecoder.ReadOptionalBBox(s, tag).fault
  {
    ExtraLikeBBox(s);
  }

  /** Everything before the vertex block. */
  datatype Header = Header(bones: seq<BoneRecord>, extra: Option<Extra>, geometry: Geometry)

  /** Lines 126-161. */
  function ReadHeader(data: Bytes): (r: Result<Parsed<Header>>)
    ensures ExpectStr(data, MeshMagic).Err? ==> r == Err(ExpectStr(data, MeshMagic).fault)
    ensures r.Ok? ==> |r.value.value.bones| < 256
    ensures r.Ok? ==> r.value.value.geometry.vertexCount % 3 == 0
  {
    var prelude :- ReadPrelude(data);
    var extra :- ReadOptionalExtra(prelude.rest, prelude.value.tag);
    var geometry :- ReadTail(extra.rest);
    Ok(Parsed(Header(prelude.value.bones, extra.value, geometry.value), geometry.rest))
  }

  /** The legacy header reads exactly the bytes the root header reads,
      fails exactly when it fails, and finds the same bones and geometry. */
  lemma {:induction false} HeadersAgree(data: Bytes)
    ensures ReadHeader(data).Ok? <==> MeshDecoder.ReadHeader(data).Ok?
    ensures ReadHeader(data).Ok? ==>
              && ReadHeader(data).value.rest == MeshDecoder.ReadHeader(data).value.rest
              && ReadHeader(data).value.value.bones == MeshDecoder.ReadHeader(data).value.value.bones
              && ReadHeader(data).value.value.geometry == MeshDecoder.ReadHeader(data).value.value.geometry
    ensures ReadHeader(data).Err? ==> ReadHeader(data).fault == MeshDecoder.ReadHeader(data).fault
  {
    var prelude := ReadPrelude(data);
    if prelude.Ok? {
      OptionalAgree(prelude.value.rest, prelude.value.value.tag);
    }
  }

  /** `record[key]`: a missing attribute raises KeyError. */
  function Require(record: Record, key: Bytes): (r: Result<seq<nat>>)
    ensures r.Ok? <==> key in OrderedMap.Keys(record)
    ensures r.Ok? ==> OrderedMap.Get(record, key) == Some(r.value)
    ensures r.Err? ==> r.fault == MissingKey
  {
    match OrderedMap.Get(record, key)
    case None => Err(MissingKey)
    case Some(v) => Ok(v)
  }

  /** One corner as the legacy loop keeps it. */
  datatype Corner = Corner(position: seq<nat>, normal: seq<nat>, uv: Uv,
                           groupPairs: seq<VertexGroups.Assignment>)

  /** Corner `i` assigns only itself, to bones of the table, with weights
      above zero. */
  predicate CornerWellMade(boneNames: seq<Bytes>, i: nat, corner: Corner) {
    forall a :: a in corner.groupPairs ==> a.vertex == i && a.bone in boneNames && Float32.IsPositive(a.weight)
  }

  /** Lines 171-183 for the corner with index `index`, in statement order:
      the position and its product with the 4x4 `global_matrix`, the bone
      indices and then the bone weights, every pair's bone lookup, the
      texture coordinate and its unpacking, the normal and its product. */
  function MakeCorner(boneNames: seq<Bytes>, index: nat, record: Record): (r: Result<Corner>)
    ensures PositionKey !in OrderedMap.Keys(record) ==> r == Err(MissingKey)
    ensures PositionKey in OrderedMap.Keys(record) && !Transformable(OrderedMap.Get(record, PositionKey).value) ==>
              r == Err(BadVectorSize)
    ensures var keys := OrderedMap.Keys(record);
            (PositionKey in keys && Transformable(OrderedMap.Get(record, PositionKey).value) &&
             (IndicesKey !in keys || WeightsKey !in keys)) ==> r == Err(MissingKey)
    ensures var keys := OrderedMap.Keys(record);
            (PositionKey in keys && Transformable(OrderedMap.Get(record, PositionKey).value) &&
             IndicesKey in keys && WeightsKey in keys) ==>
              var pairs := Skin.Zip(OrderedMap.Get(record, IndicesKey).value, OrderedMap.Get(record, WeightsKey).value);
              var groupPairs := VertexGroups.AssignVertex(boneNames, index, pairs, true);
              && (groupPairs.Err? ==> r == Err(groupPairs.fault))
              && (groupPairs.Ok? ==> r == FinishCorner(record, OrderedMap.Get(record, PositionKey).value, groupPairs.value))
    ensures r.Ok? ==> Some(r.value.position) == OrderedMap.Get(record, PositionKey)
    ensures r.Ok? ==> Some(r.value.normal) == OrderedMap.Get(record, NormalKey)
    ensures r.Ok? ==> Some([r.value.uv.u, r.value.uv.v]) == OrderedMap.Get(record, TexCoordKey)
    ensures r.Ok? ==> Transformable(r.value.position) && Transformable(r.value.normal)
    ensures r.Ok? ==> CornerWellMade(boneNames, index, r.value)
  {
    var keys := OrderedMap.Keys(record);
    if PositionKey !in keys then Err(MissingKey)
    else if !Transformable(OrderedMap.Get(record, PositionKey).value) then Err(BadVectorSize)
    else if IndicesKey !in keys || WeightsKey !in keys then Err(MissingKey)
    else
      var pairs := Skin.Zip(OrderedMap.Get(record, IndicesKey).value, OrderedMap.Get(record, WeightsKey).value);
      match VertexGroups.AssignVertex(boneNames, index, pairs, true)
      case Err(f) => Err(f)
      case Ok(groupPairs) => FinishCorner(record, OrderedMap.Get(record, PositionKey).value, groupPairs)
  }

  /** The reads of lines 179-183 that follow the bone pairs: the texture
      coordinate, its unpacking into two values, then the normal and its
      product with `global_matrix`. */
  function FinishCorner(record: Record, position: seq<nat>, groupPairs: seq<VertexGroups.Assignment>): (r: Result<Corner>)
    ensures TexCoordKey !in OrderedMap.Keys(record) ==> r == Err(MissingKey)
    ensures TexCoordKey in OrderedMap.Keys(record) ==>
              var coords := OrderedMap.Get(record, TexCoordKey).value;
              && (|coords| != 2 ==> r == Err(UnpackMismatch))
              && (|coords| == 2 && NormalKey !in OrderedMap.Keys(record) ==> r == Err(MissingKey))
              && (|coords| == 2 && NormalKey in OrderedMap.Keys(record) ==>
                    (r.Ok? <==> Transformable(OrderedMap.Get(record, NormalKey).value)) &&
                    (r.Err? ==> r.fault == BadVectorSize))
    ensures r.Ok? ==> r.value.position == position && r.value.groupPairs == groupPairs
    ensures r.Ok? ==> Some(r.value.normal) == OrderedMap.Get(record, NormalKey)
    ensures r.Ok? ==> Some([r.value.uv.u, r.value.uv.v]) == OrderedMap.Get(record, TexCoordKey)
  {
    var coords :- Require(record, TexCoordKey);
    var uv :- UnpackUv(coords);
    var normal :- Require(record, NormalKey);
    if !Transformable(normal) then Err(BadVectorSize)
    else Ok(Corner(position, normal, uv, groupPairs))
  }

  /** Lines 135-146: every record of the bone table becomes a new bone,
      under the parent bone when one is given. */
  function AllNew(records: seq<BoneRecord>, parent: Option<Bytes>): (bones: seq<MeshDecoder.Bone>)
    ensures |bones| == |records|
    ensures forall i :: 0 <= i < |records| ==>
              bones[i] == MeshDecoder.Bone(records[i].name, records[i].matrix, parent)
  {
    if |records| == 0 then []
    else [MeshDecoder.Bone(records[0].name, records[0].matrix, parent)] + AllNew(records[1..], parent)
  }

  predicate WellMade(boneNames: seq<Bytes>, corners: seq<Corner>) {
    forall i :: 0 <= i < |corners| ==> CornerWellMade(boneNames, i, corners[i])
  }

  lemma {:induction false} MadeWell(boneNames: seq<Bytes>, i: nat, record: Record, corner: Corner)
    requires MakeCorner(boneNames, i, record) == Ok(corner)
    ensures CornerWellMade(boneNames, i, corner)
  {
  }

  /** Lines 169-184: the corners of the soup, read one record at a time. */
  function ReadCorners(s: Bytes, boneNames: seq<Bytes>, geometry: Geometry): (r: Result<seq<Corner>>)
    ensures r.Ok? ==> |r.value| == geometry.vertexCount
    ensures r.Ok? ==> |s| >= BlockSize(geometry.vertexCount, geometry.layout)
    ensures r.Ok? ==> forall i :: 0 <= i < |r.value| ==>
              MakeCorner(boneNames, i, Slot(s, geometry.layout, geometry.vertexCount, i)) == Ok(r.value[i])
  {
    var make := (i: nat, record: Record) => MakeCorner(boneNames, i, record);
    var corners :- ReadVertices(s, geometry.layout, 0, geometry.vertexCount, make);
    Ok(corners.value)
  }

  lemma {:induction false} ReadCornersWellMade(s: Bytes, boneNames: seq<Bytes>, geometry: Geometry)
    ensures ReadCorners(s, boneNames, geometry).Ok? ==> WellMade(boneNames, ReadCorners(s, boneNames, geometry).value)
  {
    var r := ReadCorners(s, boneNames, geometry);
    if r.Ok? {
      forall i | 0 <= i < |r.value| ensures CornerWellMade(boneNames, i, r.value[i]) {
        MadeWell(boneNames, i, Slot(s, geometry.layout, geometry.vertexCount, i), r.value[i]);
      }
    }
  }

  /** `vertex_positions`, `vertex_normals` and the `(u, v)` list, which the
      corner loop fills together, one entry per corner in corner order. */
  function Columns(corners: seq<Corner>): (c: (seq<seq<nat>>, seq<seq<nat>>, seq<Uv>))
    ensures |c.0| == |c.1| == |c.2| == |corners|
    ensures forall i :: 0 <= i < |corners| ==>
              c.0[i] == corners[i].position && c.1[i] == corners[i].normal && c.2[i] == corners[i].uv
  {
    if |corners| == 0 then ([], [], [])
    else
      var rest := Columns(corners[1..]);
      ([corners[0].position] + rest.0, [corners[0].normal] + rest.1, [corners[0].uv] + rest.2)
  }

  /** The `setdefault(...).append(...)` calls of all corners, in order. */
  function GroupPairs(corners: seq<Corner>): seq<VertexGroups.Assignment> {
    if |corners| == 0 then [] else corners[0].groupPairs + GroupPairs(corners[1..])
  }

  /** The corners' assignments name in-range vertices and bones of the table,
      with weights above zero. */
  lemma {:induction false} GroupPairsWellMade(boneNames: seq<Bytes>, corners: seq<Corner>, first: nat)
    requires forall i :: 0 <= i < |corners| ==> CornerWellMade(boneNames, first + i, corners[i])
    ensures forall a :: a in GroupPairs(corners) ==>
              first <= a.vertex < first + |corners| && a.bone in boneNames && Float32.IsPositive(a.weight)
  {
    if |corners| > 0 {
      assert CornerWellMade(boneNames, first, corners[0]);
      assert forall i :: 0 <= i < |corners[1..]| ==> corners[1..][i] == corners[i + 1];
      GroupPairsWellMade(boneNames, corners[1..], first + 1);
    }
  }

  /** Lines 199-200: one group per key of `vertex_groups`, in that order,
      named `created_bones[bone_name]`; a name missing from `created_bones`
      would raise KeyError. */
  function NamedGroups(created: OrderedMap.Dict<Bytes, Bytes>, collected: OrderedMap.Dict<Bytes, seq<(nat, nat)>>)
    : (r: Result<seq<(Bytes, OrderedMap.Dict<nat, nat>)>>)
    ensures r.Ok? <==> forall i :: 0 <= i < |collected| ==> OrderedMap.Get(created, collected[i].0).Some?
    ensures r.Err? ==> r.fault == MissingKey
    ensures r.Ok? ==> |r.value| == |collected| && forall i :: 0 <= i < |collected| ==>
              r.value[i] == (OrderedMap.Get(created, collected[i].0).value, VertexGroups.Members(collected[i].1))
  {
    if |collected| == 0 then Ok([])
    else
      match OrderedMap.Get(created, collected[0].0)
      case None => Err(MissingKey)
      case Some(name) =>
        match NamedGroups(created, collected[1..])
        case Err(f) => Err(f)
        case Ok(tail) =>
          assert forall i :: 1 <= i < |collected| ==> collected[i] == collected[1..][i - 1];
          Ok([(name, VertexGroups.Members(collected[0].1))] + tail)
  }

  /** What the legacy `load_msh_file` gives Blender, with the Blender calls
      left out. */
  datatype Decoded = Decoded(
    boneNames: seq<Bytes>,
    createdBones: OrderedMap.Dict<Bytes, Bytes>,
    newBones: seq<MeshDecoder.Bone>,
    extra: Option<Extra>,
    positions: seq<seq<nat>>,
    normals: seq<seq<nat>>,
    uvs: seq<Uv>,
    faces: seq<Face>,
    vertexGroups: OrderedMap.Dict<Bytes, seq<(nat, nat)>>,    // `vertex_groups`
    groups: seq<(Bytes, OrderedMap.Dict<nat, nat>)>)           // the Blender vertex groups

  /** Lines 120-208. */
  function DecodeLegacy(data: Bytes, parent: Option<Bytes>): (r: Result<Decoded>)
    ensures ReadHeader(data).Err? ==> r == Err(ReadHeader(data).fault)
    ensures ReadHeader(data).Ok? ==>
              var h := ReadHeader(data).value;
              var corners := ReadCorners(h.rest, MeshDecoder.Names(h.value.bones), h.value.geometry);
              && (corners.Err? ==> r == Err(corners.fault))
              && (corners.Ok? ==> r.Ok?)
    ensures r.Ok? ==> |r.value.positions| == |r.value.normals| == |r.value.uvs| == 3 * |r.value.faces|
    ensures r.Ok? ==> r.value.faces == SoupFaces(|r.value.faces|)
    ensures r.Ok? ==> |r.value.newBones| == |r.value.boneNames| && forall i :: 0 <= i < |r.value.boneNames| ==>
              r.value.newBones[i].name == r.value.boneNames[i] && r.value.newBones[i].parent == parent
    ensures r.Ok? ==> r.value.createdBones == MeshDecoder.CreatedBones(r.value.boneNames)
    ensures r.Ok? ==> |r.value.groups| == |r.value.vertexGroups| && forall i :: 0 <= i < |r.value.groups| ==>
              r.value.groups[i] == (r.value.vertexGroups[i].0, VertexGroups.Members(r.value.vertexGroups[i].1))
    ensures r.Ok? ==> forall i :: 0 <= i < |r.value.vertexGroups| ==>
              r.value.vertexGroups[i].0 in r.value.boneNames && Weighted(r.value.vertexGroups[i].1, |r.value.positions|)
  {
    var header :- ReadHeader(data);
    var names := MeshDecoder.Names(header.value.bones);
    var geometry := header.value.geometry;
    var corners :- ReadCorners(header.rest, names, geometry);
    ReadCornersWellMade(header.rest, names, geometry);
    var groups := GroupsOf(names, corners);
    ThirdOfTriples(geometry.vertexCount);
    var columns := Columns(corners);
    Ok(Decoded(names, MeshDecoder.CreatedBones(names), AllNew(header.value.bones, parent), header.value.extra,
               columns.0, columns.1, columns.2, SoupFaces(geometry.vertexCount / 3),
               groups.0, groups.1))
  }

  /** A list of `(vertex_idx, bone_weight)` with in-range vertices and
      weights above zero. */
  predicate Weighted(info: seq<(nat, nat)>, count: nat) {
    forall p :: p in info ==> p.0 < count && Float32.IsPositive(p.1)
  }

  /** Lines 176-178 and 199-202: `vertex_groups` and the Blender groups
      built from it. */
  function GroupsOf(names: seq<Bytes>, corners: seq<Corner>)
    : (r: (OrderedMap.Dict<Bytes, seq<(nat, nat)>>, seq<(Bytes, OrderedMap.Dict<nat, nat>)>))
    requires WellMade(names, corners)
    ensures |r.1| == |r.0| && forall i :: 0 <= i < |r.1| ==> r.1[i] == (r.0[i].0, VertexGroups.Members(r.0[i].1))
    ensures forall i :: 0 <= i < |r.0| ==> r.0[i].0 in names && Weighted(r.0[i].1, |corners|)
  {
    var xs := GroupPairs(corners);
    var collected := VertexGroups.Collect(xs);
    GroupPairsWellMade(names, corners, 0);
    GroupsFromPairs(names, |corners|, xs);
    NamedGroupsSelf(names, collected);
    var groups := NamedGroups(MeshDecoder.CreatedBones(names), collected);
    (collected, groups.value)
  }

  /** Every key of `vertex_groups` is a bone name, so the lookup in
      `created_bones` never raises and names each group after its bone. */
  lemma {:induction false} NamedGroupsSelf(names: seq<Bytes>, collected: OrderedMap.Dict<Bytes, seq<(nat, nat)>>)
    requires forall i :: 0 <= i < |collected| ==> collected[i].0 in names
    ensures var r := NamedGroups(MeshDecoder.CreatedBones(names), collected);
            r.Ok? && |r.value| == |collected| &&
            forall i :: 0 <= i < |collected| ==> r.value[i] == (collected[i].0, VertexGroups.Members(collected[i].1))
  {
    var created := MeshDecoder.CreatedBones(names);
    forall i | 0 <= i < |collected| ensures OrderedMap.Get(created, collected[i].0) == Some(collected[i].0) {
      MeshDecoder.CreatedBonesGet(names, collected[i].0);
    }
  }

  /** The keys of `vertex_groups` are bone names and its lists hold in-range
      vertices with weights above zero. */
  lemma {:induction false} GroupsFromPairs(names: seq<Bytes>, count: nat, xs: seq<VertexGroups.Assignment>)
    requires forall a :: a in xs ==> a.vertex < count && a.bone in names && Float32.IsPositive(a.weight)
    ensures forall i :: 0 <= i < |VertexGroups.Collect(xs)| ==> VertexGroups.Collect(xs)[i].0 in names
    ensures forall i :: 0 <= i < |VertexGroups.Collect(xs)| ==> Weighted(VertexGroups.Collect(xs)[i].1, count)
  {
    var collected := VertexGroups.Collect(xs);
    forall i | 0 <= i < |collected|
      ensures collected[i].0 in names && Weighted(collected[i].1, count)
    {
      GroupFromPairs(names, count, xs, i);
    }
  }

  lemma {:induction false} GroupFromPairs(names: seq<Bytes>, count: nat, xs: seq<VertexGroups.Assignment>, i: nat)
    requires forall a :: a in xs ==> a.vertex < count && a.bone in names && Float32.IsPositive(a.weight)
    requires i < |VertexGroups.Collect(xs)|
    ensures VertexGroups.Collect(xs)[i].0 in names
    ensures Weighted(VertexGroups.Collect(xs)[i].1, count)
  {
    var collected := VertexGroups.Collect(xs);
    var b := collected[i].0;
    VertexGroups.CollectKeys(xs);
    OrderedMap.FirstOccurrencesMembers(VertexGroups.Bones(xs));
    assert OrderedMap.Keys(collected)[i] == b;
    assert b in OrderedMap.Keys(collected);
    assert b in OrderedMap.FirstOccurrences(VertexGroups.Bones(xs));
    assert b in VertexGroups.Bones(xs);
    var j :| 0 <= j < |xs| && VertexGroups.Bones(xs)[j] == b;
    assert xs[j] in xs;
    assert b in names;
    VertexGroups.CollectGet(xs, b);
    OrderedMap.IndexOfUnique(collected, b, i);
    assert OrderedMap.Get(collected, b) == Some(collected[i].1);
    assert collected[i].1 == VertexGroups.WeightsFor(xs, b);
    VertexGroups.WeightsForFrom(xs, b);
    forall p | p in collected[i].1 ensures p.0 < count && Float32.IsPositive(p.1) {
      assert VertexGroups.Assignment(b, p.0, p.1) in xs;
    }
  }

  /** A record the legacy loop accepts, the root loop accepts too, and both
      keep the same position, normal and texture coordinate. */
  lemma {:induction false} CornerAcceptedByRoot(boneNames: seq<Bytes>, i: nat, record: Record)
    requires MakeCorner(boneNames, i, record).Ok?
    ensures MeshDecoder.MakeVertex(i, record).Ok?
    ensures var corner := MakeCorner(boneNames, i, record).value;
            var made := MeshDecoder.MakeVertex(i, record).value;
            made.0.position == corner.position && made.0.normal == corner.normal && made.1 == corner.uv
  {
  }

  /** A vertex block the legacy loop reads, the root loop reads too, with
      the same positions, normals and texture coordinates. */
  lemma {:induction false} CornersAcceptedByRoot(s: Bytes, names: seq<Bytes>, geometry: Geometry)
    requires ReadCorners(s, names, geometry).Ok?
    ensures MeshDecoder.ReadCorners(s, geometry).Ok?
    ensures var corners := ReadCorners(s, names, geometry).value;
            var made := MeshDecoder.ReadCorners(s, geometry).value;
            forall i :: 0 <= i < geometry.vertexCount ==>
              && corners[i].position == made.0[i].position && corners[i].normal == made.0[i].normal
              && corners[i].uv == made.1[i]
  {
    CornersReadByRoot(s, names, geometry);
    var corners := ReadCorners(s, names, geometry).value;
    var made := MeshDecoder.ReadCorners(s, geometry).value;
    forall i | 0 <= i < geometry.vertexCount
      ensures corners[i].position == made.0[i].position && corners[i].normal == made.0[i].normal
      ensures corners[i].uv == made.1[i]
    {
      var record := Slot(s, geometry.layout, geometry.vertexCount, i);
      assert MakeCorner(names, i, record) == Ok(corners[i]);
      assert MeshDecoder.MakeVertex(i, record) == Ok((made.0[i], made.1[i]));
      CornerAcceptedByRoot(names, i, record);
    }
  }

  /** The root loop reads every vertex block the legacy loop reads. */
  lemma {:induction false} CornersReadByRoot(s: Bytes, names: seq<Bytes>, geometry: Geometry)
    requires ReadCorners(s, names, geometry).Ok?
    ensures MeshDecoder.ReadCorners(s, geometry).Ok?
  {
    var make := (i: nat, record: Record) => MakeCorner(names, i, record);
    forall i, record | make(i, record).Ok? ensures MeshDecoder.MakeVertex(i, record).Ok? {
      CornerAcceptedByRoot(names, i, record);
    }
    ReadVerticesTransfer(s, geometry.layout, 0, geometry.vertexCount, MeshDecoder.MakeVertex, make);
  }

  /** Whatever file the legacy copy loads, the root copy loads as well, with
      the same bone names, triangles, positions, normals and texture
      coordinates. */
  lemma {:induction false} LegacyAcceptedByRoot(data: Bytes, parent: Option<Bytes>)
    requires DecodeLegacy(data, parent).Ok?
    ensures MeshDecoder.DecodeMesh(data, parent).Ok?
    ensures var legacy := DecodeLegacy(data, parent).value;
            var root := MeshDecoder.DecodeMesh(data, parent).value;
            && legacy.boneNames == root.boneNames
            && legacy.faces == root.faces
            && legacy.uvs == root.uvs
            && |legacy.positions| == |root.vertices|
            && forall i :: 0 <= i < |root.vertices| ==>
                 legacy.positions[i] == root.vertices[i].position && legacy.normals[i] == root.vertices[i].normal
  {
    HeadersAgree(data);
    LegacyUnfold(data, parent);
    var header := ReadHeader(data).value;
    var names := MeshDecoder.Names(header.value.bones);
    var geometry := header.value.geometry;
    var corners := ReadCorners(header.rest, names, geometry).value;
    CornersAcceptedByRoot(header.rest, names, geometry);
    var made := MeshDecoder.ReadCorners(header.rest, geometry).value;
    MeshDecoder.DecodeMeshUnfold(data, parent);
    var legacy := DecodeLegacy(data, parent).value;
    var root := MeshDecoder.DecodeMesh(data, parent).value;
    assert (legacy.positions, legacy.normals, legacy.uvs) == Columns(corners);
    assert root.vertices == made.0;
    assert legacy.uvs == made.1;
    assert |corners| == |made.0| == geometry.vertexCount;
    forall i | 0 <= i < |root.vertices|
      ensures legacy.positions[i] == root.vertices[i].position && legacy.normals[i] == root.vertices[i].normal
    {
      assert legacy.positions[i] == corners[i].position && legacy.normals[i] == corners[i].normal;
    }
  }

  /** The parts a decoded legacy mesh is made of. */
  lemma {:induction false} LegacyUnfold(data: Bytes, parent: Option<Bytes>)
    requires DecodeLegacy(data, parent).Ok?
    ensures ReadHeader(data).Ok?
    ensures var header := ReadHeader(data).value;
            var names := MeshDecoder.Names(header.value.bones);
            var corners := ReadCorners(header.rest, names, header.value.geometry);
            var legacy := DecodeLegacy(data, parent).value;
            && corners.Ok?
            && legacy.boneNames == names
            && (legacy.positions, legacy.normals, legacy.uvs) == Columns(corners.value)
            && legacy.faces == SoupFaces(header.value.geometry.vertexCount / 3)
  {
  }
}
