/** The root copy's `load_msh_file` (importer.py), from opening the file to
    the vertex list, face list and UV list it hands to Blender.

    Two things set this copy apart from the legacy one: a bone that bears
    the parent bone's name is the parent bone itself rather than a new bone,
    and every vertex keeps four zero skinning slots in front of the pairs
    read from the file, which are sorted and stripped of zero weights. */
module MeshDecoder {
  import opened Base
  import opened Bytes
  import opened Cursor
  import opened MeshCommon
  import OrderedMap
  import Skin

  /** A bone the decoder adds to the armature, under `parent` if given. */
  datatype Bone = Bone(name: Bytes, matrix: seq<nat>, parent: Option<Bytes>)

  /** The bounding box read when the second metadata block's tag is 2. */
  datatype BBox = BBox(name: Bytes, position: seq<nat>, unknown: nat,
                       rotation: seq<nat>, scale: seq<nat>)

  /** `VertexData`.  Positions and normals are kept as read: the parent
      bone's transform is applied by Blender's math library. */
  datatype Vertex = Vertex(position: seq<nat>, normal: seq<nat>,
                           boneIds: seq<nat>, boneWeights: seq<nat>)

  /** The `[0] * 4` every vertex's bone lists start from. */
  const DefaultSlots: seq<nat> := [0, 0, 0, 0]

  /** The normal of a layout without `vertexNormal`. */
  const DefaultNormal: seq<nat> := [0, 0, 0]

  /** The texture coordinate of a layout without `vertexTextureCoordinate`. */
  const DefaultUv: seq<nat> := [0, 0]

  datatype Mesh = Mesh(
    boneNames: seq<Bytes>,                          // `bone_names`, in file order
    createdBones: OrderedMap.Dict<Bytes, Bytes>,    // `created_bones`
    newBones: seq<Bone>,                            // the bones added to the armature
    bbox: Option<BBox>,
    vertices: seq<Vertex>,                          // one per face corner
    uvs: seq<Uv>,                                   // one per face corner
    faces: seq<Face>)

  function Names(records: seq<BoneRecord>): (names: seq<Bytes>)
    ensures |names| == |records|
    ensures forall i :: 0 <= i < |records| ==> names[i] == records[i].name
  {
    if |records| == 0 then [] else [records[0].name] + Names(records[1..])
  }

  /** The bones the table adds: all but those named like the parent bone,
      which stands for itself. */
  function NewBones(records: seq<BoneRecord>, parent: Option<Bytes>): (bones: seq<Bone>)
    ensures |bones| <= |records|
    ensures forall b :: b in bones ==> b.parent == parent && Some(b.name) != parent
    ensures forall b :: b in bones ==> BoneRecord(b.name, b.matrix) in records
    ensures forall r :: r in records && Some(r.name) != parent ==> Bone(r.name, r.matrix, parent) in bones
  {
    if |records| == 0 then []
    else
      var head := if Some(records[0].name) == parent then [] else [Bone(records[0].name, records[0].matrix, parent)];
      var tail := NewBones(records[1..], parent);
      assert records == [records[0]] + records[1..];
      head + tail
  }

  /** `(name, name)` for every name: `created_bones[bone_name] = new_bone.name`
      with Blender keeping the requested name. */
  function SelfPairs(names: seq<Bytes>): (ps: seq<(Bytes, Bytes)>)
    ensures OrderedMap.Keys(ps) == names
    ensures forall i :: 0 <= i < |ps| ==> ps[i].1 == ps[i].0
  {
    if |names| == 0 then [] else [(names[0], names[0])] + SelfPairs(names[1..])
  }

  function CreatedBones(names: seq<Bytes>): (created: OrderedMap.Dict<Bytes, Bytes>)
    ensures OrderedMap.Valid(created)
  {
    OrderedMap.FromPairs(SelfPairs(names))
  }

  lemma {:induction false} LastValueOfSelfPairs(ps: seq<(Bytes, Bytes)>, k: Bytes)
    requires forall i :: 0 <= i < |ps| ==> ps[i].1 == ps[i].0
    ensures OrderedMap.LastValue(ps, k) == if k in OrderedMap.Keys(ps) then Some(k) else None
  {
    if |ps| > 0 {
      var init := ps[..|ps| - 1];
      LastValueOfSelfPairs(init, k);
      assert OrderedMap.Keys(ps) == OrderedMap.Keys(init) + [ps[|ps| - 1].0];
    }
  }

  /** `created_bones` names every bone of the table once, in the order the
      names first appear, each mapped to itself. */
  lemma {:induction false} CreatedBonesMeaning(names: seq<Bytes>)
    ensures OrderedMap.Keys(CreatedBones(names)) == OrderedMap.FirstOccurrences(names)
    ensures forall k :: OrderedMap.Get(CreatedBones(names), k) == if k in names then Some(k) else None
  {
    OrderedMap.FromPairsMeaning(SelfPairs(names));
    forall k ensures OrderedMap.LastValue(SelfPairs(names), k) == if k in names then Some(k) else None {
      LastValueOfSelfPairs(SelfPairs(names), k);
    }
  }

  /** Every name of the table is a key of `created_bones`, mapped to
      itself. */
  lemma {:induction false} CreatedBonesGet(names: seq<Bytes>, k: Bytes)
    requires k in names
    ensures OrderedMap.Get(CreatedBones(names), k) == Some(k)
  {
    CreatedBonesMeaning(names);
  }

  /** Lines 178-182: name, position, one unnamed float, rotation, scale. */
  function ReadBBox(s: Bytes): (r: Result<Parsed<BBox>>)
    ensures r.Ok? ==> |r.value.value.position| == 3 && |r.value.value.rotation| == 4
    ensures r.Ok? ==> |r.value.value.scale| == 3
    ensures r.Ok? ==> |r.value.rest| < |s|
  {
    var name :- ReadStr(s);
    ReadBoxFields(name.value, name.rest)
  }

  /** The fields after the name: 3 + 1 + 4 + 3 floats, 44 bytes in all;
      a short read is `Truncated` whichever field it cuts. */
  function ReadBoxFields(name: Bytes, t: Bytes): (r: Result<Parsed<BBox>>)
    ensures r.Ok? <==> |t| >= 44
    ensures r.Err? ==> r.fault == Truncated
    ensures r.Ok? ==> r.value.rest == t[44..] && r.value.value.name == name
    ensures r.Ok? ==> |r.value.value.position| == 3 && |r.value.value.rotation| == 4
    ensures r.Ok? ==> |r.value.value.scale| == 3
  {
    assert Size(Floats(3)) == 12 && Size(Floats(4)) == 16 && Size([F32]) == 4;
    var position :- ReadStruct(Floats(3), t);
    var unknown :- ReadOne([F32], position.rest);
    var rotation :- ReadStruct(Floats(4), unknown.rest);
    var scale :- ReadStruct(Floats(3), rotation.rest);
    assert t[12..][4..][16..][12..] == t[44..];
    Ok(Parsed(BBox(name, position.value, unknown.value, rotation.value, scale.value), scale.rest))
  }

  /** The bounding box is there exactly when the tag is 2. */
  function ReadOptionalBBox(s: Bytes, tag: nat): (r: Result<Parsed<Option<BBox>>>)
    ensures tag != 2 ==> r == Ok(Parsed(None, s))
    ensures tag == 2 ==> (r.Ok? <==> ReadBBox(s).Ok?)
    ensures tag == 2 && r.Ok? ==> r.value == Parsed(Some(ReadBBox(s).value.value), ReadBBox(s).value.rest)
  {
    if tag != 2 then Ok(Parsed(None, s))
    else
      var box :- ReadBBox(s);
      Ok(Parsed(Some(box.value), box.rest))
  }

  /** Lines 205-209: both bone lists start with the four default slots,
      followed by the file's pairs sorted and stripped of zero weights. */
  function SkinLists(indices: seq<nat>, weights: seq<nat>): (r: (seq<nat>, seq<nat>))
    ensures |r.0| == |r.1| >= 4
    ensures r.0[..4] == DefaultSlots && r.1[..4] == DefaultSlots
    ensures Skin.Zip(r.0[4..], r.1[4..]) == Skin.RealPairs(indices, weights)
  {
    var pairs := Skin.RealPairs(indices, weights);
    var ids := DefaultSlots + OrderedMap.Keys(pairs);
    var ws := DefaultSlots + OrderedMap.Values(pairs);
    assert ids[4..] == OrderedMap.Keys(pairs) && ws[4..] == OrderedMap.Values(pairs);
    Skin.ZipOfComponents(pairs);
    (ids, ws)
  }

  /** Lines 200-213 for one corner, in statement order: `vertexPosition`
      must be present, the position and the normal (zeros by default) are
      multiplied by the 4x4 `global_matrix`, so each must have 3 or 4 items,
      and a texture coordinate must be a pair. */
  function MakeVertex(index: nat, record: Record): (r: Result<(Vertex, Uv)>)
    ensures var keys := OrderedMap.Keys(record);
            var position := OrderedMap.GetOr(record, PositionKey, []);
            var normal := OrderedMap.GetOr(record, NormalKey, DefaultNormal);
            r.Err? <==> PositionKey !in keys || !Transformable(position) || !Transformable(normal)
                        || (TexCoordKey in keys && |OrderedMap.GetOr(record, TexCoordKey, [])| != 2)
    ensures var keys := OrderedMap.Keys(record);
            var position := OrderedMap.GetOr(record, PositionKey, []);
            var normal := OrderedMap.GetOr(record, NormalKey, DefaultNormal);
            r.Err? ==> r.fault == if PositionKey !in keys then MissingKey
                                  else if !Transformable(position) || !Transformable(normal) then BadVectorSize
                                  else UnpackMismatch
    ensures r.Ok? ==> Some(r.value.0.position) == OrderedMap.Get(record, PositionKey)
    ensures r.Ok? ==> r.value.0.normal == OrderedMap.GetOr(record, NormalKey, DefaultNormal)
    ensures r.Ok? ==> (r.value.0.boneIds, r.value.0.boneWeights)
                      == SkinLists(OrderedMap.GetOr(record, IndicesKey, []),
                                   OrderedMap.GetOr(record, WeightsKey, []))
    ensures r.Ok? ==> [r.value.1.u, r.value.1.v] == OrderedMap.GetOr(record, TexCoordKey, DefaultUv)
  {
    match OrderedMap.Get(record, PositionKey)
    case None => Err(MissingKey)
    case Some(position) =>
      var normal := OrderedMap.GetOr(record, NormalKey, DefaultNormal);
      if !Transformable(position) || !Transformable(normal) then Err(BadVectorSize)
      else
        var lists := SkinLists(OrderedMap.GetOr(record, IndicesKey, []),
                               OrderedMap.GetOr(record, WeightsKey, []));
        var uv :- UnpackUv(OrderedMap.GetOr(record, TexCoordKey, DefaultUv));
        Ok((Vertex(position, normal, lists.0, lists.1), uv))
  }

  /** Everything before the vertex block. */
  datatype Header = Header(bones: seq<BoneRecord>, bbox: Option<BBox>, geometry: Geometry)

  /** Lines 150-190: magic, bone table, three metadata blocks with the
      optional bounding box after the second, layout and vertex count. */
  function ReadHeader(data: Bytes): (r: Result<Parsed<Header>>)
    ensures ExpectStr(data, MeshMagic).Err? ==> r == Err(ExpectStr(data, MeshMagic).fault)
    ensures r.Ok? ==> |r.value.value.bones| < 256
    ensures r.Ok? ==> r.value.value.geometry.vertexCount % 3 == 0
  {
    var prelude :- ReadPrelude(data);
    var bbox :- ReadOptionalBBox(prelude.rest, prelude.value.tag);
    var geometry :- ReadTail(bbox.rest);
    Ok(Parsed(Header(prelude.value.bones, bbox.value, geometry.value), geometry.rest))
  }

  /** Both bone lists have the same length and start with the defaults. */
  predicate Shaped(v: Vertex) {
    |v.boneIds| == |v.boneWeights| >= 4 && v.boneIds[..4] == DefaultSlots
  }

  /** Lines 197-214: the corners of `poly_cnt` triangles. */
  function ReadCorners(s: Bytes, geometry: Geometry): (r: Result<(seq<Vertex>, seq<Uv>)>)
    ensures r.Ok? ==> |r.value.0| == |r.value.1| == geometry.vertexCount
    ensures r.Ok? ==> |s| >= BlockSize(geometry.vertexCount, geometry.layout)
    ensures r.Ok? ==> forall i :: 0 <= i < geometry.vertexCount ==>
              MakeVertex(i, Slot(s, geometry.layout, geometry.vertexCount, i)) == Ok((r.value.0[i], r.value.1[i]))
  {
    var made :- ReadVertices(s, geometry.layout, 0, geometry.vertexCount, MakeVertex);
    Ok((OrderedMap.Keys(made.value), OrderedMap.Values(made.value)))
  }

  /** Every vertex read carries the four default slots. */
  lemma {:induction false} ReadCornersShaped(s: Bytes, geometry: Geometry)
    ensures var r := ReadCorners(s, geometry);
            r.Ok? ==> forall i :: 0 <= i < |r.value.0| ==> Shaped(r.value.0[i])
  {
    var r := ReadCorners(s, geometry);
    if r.Ok? {
      forall i | 0 <= i < |r.value.0| ensures Shaped(r.value.0[i]) {
        var record := Slot(s, geometry.layout, geometry.vertexCount, i);
        assert MakeVertex(i, record) == Ok((r.value.0[i], r.value.1[i]));
      }
    }
  }

  /** Lines 149-214: the whole file, up to the triangle soup.  Bytes after
      the vertex block are not looked at. */
  function DecodeMesh(data: Bytes, parent: Option<Bytes>): (r: Result<Mesh>)
    ensures ExpectStr(data, MeshMagic).Err? ==> r == Err(ExpectStr(data, MeshMagic).fault)
    ensures r.Ok? ==> |r.value.boneNames| < 256
    ensures r.Ok? ==> |r.value.vertices| == |r.value.uvs| == 3 * |r.value.faces|
    ensures r.Ok? ==> r.value.faces == SoupFaces(|r.value.faces|)
    ensures r.Ok? ==> r.value.createdBones == CreatedBones(r.value.boneNames)
    ensures r.Ok? ==> forall b :: b in r.value.newBones ==>
              b.parent == parent && Some(b.name) != parent && b.name in r.value.boneNames
    ensures r.Ok? ==> forall i :: 0 <= i < |r.value.vertices| ==> Shaped(r.value.vertices[i])
  {
    var header :- ReadHeader(data);
    var corners :- ReadCorners(header.rest, header.value.geometry);
    ReadCornersShaped(header.rest, header.value.geometry);
    var names := Names(header.value.bones);
    var bones := NewBones(header.value.bones, parent);
    NewBonesNamed(header.value.bones, parent);
    ThirdOfTriples(header.value.geometry.vertexCount);
    Ok(Mesh(names, CreatedBones(names), bones, header.value.bbox, corners.0, corners.1,
            SoupFaces(header.value.geometry.vertexCount / 3)))
  }

  /** Every new bone is named after a file bone. */
  lemma {:induction false} NewBonesNamed(records: seq<BoneRecord>, parent: Option<Bytes>)
    ensures forall b :: b in NewBones(records, parent) ==> b.name in Names(records)
  {
    forall b | b in NewBones(records, parent) ensures b.name in Names(records) {
      var i :| 0 <= i < |records| && records[i] == BoneRecord(b.name, b.matrix);
      assert Names(records)[i] == b.name;
    }
  }

  /** The parts a decoded mesh is made of: the header's bone names, the
      vertex block's corners, the soup over them. */
  lemma {:induction false} DecodeMeshUnfold(data: Bytes, parent: Option<Bytes>)
    requires ReadHeader(data).Ok?
    requires ReadCorners(ReadHeader(data).value.rest, ReadHeader(data).value.value.geometry).Ok?
    ensures var header := ReadHeader(data).value;
            var made := ReadCorners(header.rest, header.value.geometry).value;
            var mesh := DecodeMesh(data, parent);
            && mesh.Ok?
            && mesh.value.boneNames == Names(header.value.bones)
            && mesh.value.vertices == made.0
            && mesh.value.uvs == made.1
            && mesh.value.faces == SoupFaces(header.value.geometry.vertexCount / 3)
  {
  }
}
