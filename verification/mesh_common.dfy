/** The parts of the MSH1.0 byte grammar that both copies of `load_msh_file`
    read with the same statements: the magic, the bone table, the fixed
    metadata blocks, the vertex layout table, the vertex count check and one
    vertex's attribute record. */
module MeshCommon {
  import opened Base
  import opened Bytes
  import opened Cursor
  import OrderedMap
  import Utf8

  /** The magic both decoders assert, "MSH1.0". */
  const MeshMagic: Bytes := [0x4D, 0x53, 0x48, 0x31, 0x2E, 0x30]

  /** One bone of the file's bone table: its name and its 16 matrix floats. */
  datatype BoneRecord = BoneRecord(name: Bytes, matrix: seq<nat>)

  /** `num_bones` times: `read_str` then `read_struct('<16f')`. */
  function ReadBoneRecords(s: Bytes, count: nat): (r: Result<Parsed<seq<BoneRecord>>>)
    ensures r.Ok? ==> |r.value.value| == count
    ensures r.Ok? ==> forall i :: 0 <= i < count ==> |r.value.value[i].matrix| == 16
    ensures r.Ok? ==> |r.value.rest| <= |s|
    decreases count
  {
    if count == 0 then Ok(Parsed([], s))
    else
      var name :- ReadStr(s);
      var matrix :- ReadStruct(Floats(16), name.rest);
      var more :- ReadBoneRecords(matrix.rest, count - 1);
      Ok(Parsed([BoneRecord(name.value, matrix.value)] + more.value, more.rest))
  }

  /** A metadata block: a `'<B'` tag followed by `width` floats. */
  datatype Meta = Meta(tag: nat, data: seq<nat>)

  function ReadMeta(s: Bytes, width: nat): (r: Result<Parsed<Meta>>)
    ensures r.Ok? <==> |s| >= 1 + 4 * width
    ensures r.Ok? ==> r.value.value.tag < 256 && |r.value.value.data| == width
    ensures r.Ok? ==> r.value.rest == s[1 + 4 * width..]
  {
    var tag :- ReadOne([U8], s);
    var data :- ReadStruct(Floats(width), tag.rest);
    Ok(Parsed(Meta(tag.value, data.value), data.rest))
  }

  /** The vertex layout: attribute name to number of floats, as a dict. */
  type Layout = OrderedMap.Dict<Bytes, nat>

  /** `layout_size` times: the key by `read_str`, then the width by
      `read_one('<B')` (a dict comprehension evaluates the key first). */
  function ReadLayoutEntries(s: Bytes, count: nat): (r: Result<Parsed<seq<(Bytes, nat)>>>)
    ensures r.Ok? ==> |r.value.value| == count
    ensures r.Ok? ==> forall i :: 0 <= i < count ==> r.value.value[i].1 < 256
    decreases count
  {
    if count == 0 then Ok(Parsed([], s))
    else
      var name :- ReadStr(s);
      var width :- ReadOne([U8], name.rest);
      var more :- ReadLayoutEntries(width.rest, count - 1);
      Ok(Parsed([(name.value, width.value)] + more.value, more.rest))
  }

  /** `{read_str(f): read_one('<B', f) for _ in range(layout_size)}`. */
  function ReadLayout(s: Bytes): (r: Result<Parsed<Layout>>)
    ensures r.Ok? ==> OrderedMap.Valid(r.value.value)
  {
    var size :- ReadOne([U8], s);
    var entries :- ReadLayoutEntries(size.rest, size.value);
    Ok(Parsed(OrderedMap.FromPairs(entries.value), entries.rest))
  }

  /** `sum(vertex_layout.values())`: floats per vertex. */
  function Stride(layout: Layout): nat {
    if |layout| == 0 then 0 else layout[0].1 + Stride(layout[1..])
  }

  /** `vertex_cnt = data_size // vertex_info_size`, then
      `assert vertex_cnt % 3 == 0`; a zero stride divides by zero. */
  function VertexCount(dataSize: nat, layout: Layout): (r: Result<nat>)
    ensures r.Err? <==> Stride(layout) == 0 || (dataSize / Stride(layout)) % 3 != 0
    ensures r.Err? && Stride(layout) == 0 ==> r.fault == DivisionByZero
    ensures r.Err? && Stride(layout) != 0 ==> r.fault == NotTriangles
    ensures r.Ok? ==> r.value % 3 == 0
    ensures r.Ok? ==> r.value * Stride(layout) <= dataSize < (r.value + 1) * Stride(layout)
  {
    var stride := Stride(layout);
    if stride == 0 then Err(DivisionByZero)
    else
      var count := dataSize / stride;
      if count % 3 != 0 then Err(NotTriangles) else Ok(count)
  }

  /** One vertex as read: attribute name to its floats, in layout order. */
  type Record = OrderedMap.Dict<Bytes, seq<nat>>

  /** `{k: read_struct(f'<{v}f', f) for k, v in vertex_layout.items()}`. */
  function ReadRecord(s: Bytes, layout: Layout): (r: Result<Parsed<Record>>)
    ensures r.Ok? <==> |s| >= 4 * Stride(layout)
    ensures r.Err? ==> r.fault == Truncated
    ensures r.Ok? ==> r.value.rest == s[4 * Stride(layout)..]
  {
    if |layout| == 0 then Ok(Parsed([], s))
    else
      var (name, width) := layout[0];
      if |s| < 4 * width then Err(Truncated)
      else
        var words := ReadStruct(Floats(width), s).value;
        match ReadRecord(words.rest, layout[1..])
        case Err(f) => Err(f)
        case Ok(more) =>
          assert s[4 * width..][4 * Stride(layout[1..])..] == s[4 * Stride(layout)..];
          Ok(Parsed([(name, words.value)] + more.value, more.rest))
  }

  /** A record read with a layout has the layout's keys, in order, each with
      as many floats as its width. */
  lemma {:induction false} ReadRecordShape(s: Bytes, layout: Layout)
    requires ReadRecord(s, layout).Ok?
    ensures var record := ReadRecord(s, layout).value.value;
            OrderedMap.Keys(record) == OrderedMap.Keys(layout) &&
            |record| == |layout| &&
            forall i :: 0 <= i < |layout| ==> |record[i].1| == layout[i].1
  {
    if |layout| > 0 {
      var width := layout[0].1;
      var words := ReadStruct(Floats(width), s).value;
      ReadRecordShape(words.rest, layout[1..]);
      var more := ReadRecord(words.rest, layout[1..]).value.value;
      var record := ReadRecord(s, layout).value.value;
      assert record == [(layout[0].0, words.value)] + more;
      assert OrderedMap.Keys(record) == [layout[0].0] + OrderedMap.Keys(more);
      assert OrderedMap.Keys(layout) == [layout[0].0] + OrderedMap.Keys(layout[1..]);
      forall i | 0 < i < |layout|
        ensures |record[i].1| == layout[i].1
      {
        assert record[i] == more[i - 1];
      }
    }
  }

  /** A record carries the keys of its layout, so it is a valid dict too. */
  lemma {:induction false} RecordIsValid(layout: Layout, record: Record)
    requires OrderedMap.Valid(layout)
    requires OrderedMap.Keys(record) == OrderedMap.Keys(layout)
    ensures OrderedMap.Valid(record)
  {
  }

  /** The bytes of a bone table, as a writer of the format lays them out. */
  function EncodeBoneRecords(bones: seq<BoneRecord>): Bytes
    requires forall i :: 0 <= i < |bones| ==> Fits(Floats(16), bones[i].matrix)
  {
    if |bones| == 0 then []
    else bones[0].name + [0] + Pack(Floats(16), bones[0].matrix) + EncodeBoneRecords(bones[1..])
  }

  /** Names that `read_str` can read back: no zero byte, valid UTF-8. */
  predicate Readable(name: Bytes) {
    0 !in name && Utf8.Valid(name)
  }

  /** Decoding an encoded bone table gives the bones back and stops exactly
      where the table ends. */
  lemma {:induction false} ReadBoneRecordsOfEncoding(bones: seq<BoneRecord>, rest: Bytes)
    requires forall i :: 0 <= i < |bones| ==> Fits(Floats(16), bones[i].matrix)
    requires forall i :: 0 <= i < |bones| ==> Readable(bones[i].name)
    ensures ReadBoneRecords(EncodeBoneRecords(bones) + rest, |bones|) == Ok(Parsed(bones, rest))
  {
    if |bones| > 0 {
      ReadBoneRecordsOfEncoding(bones[1..], rest);
      ReadBoneRecordStep(bones, rest);
    } else {
      assert EncodeBoneRecords(bones) + rest == rest;
    }
  }

  /** The step of `ReadBoneRecordsOfEncoding`: one bone read in front of a
      table that reads back. */
  lemma {:induction false} ReadBoneRecordStep(bones: seq<BoneRecord>, rest: Bytes)
    requires |bones| > 0
    requires forall i :: 0 <= i < |bones| ==> Fits(Floats(16), bones[i].matrix)
    requires Readable(bones[0].name)
    requires ReadBoneRecords(EncodeBoneRecords(bones[1..]) + rest, |bones| - 1) == Ok(Parsed(bones[1..], rest))
    ensures ReadBoneRecords(EncodeBoneRecords(bones) + rest, |bones|) == Ok(Parsed(bones, rest))
  {
    EncodeBoneRecordsFront(bones, rest);
    ReadBoneRecordsCons(bones[0], EncodeBoneRecords(bones[1..]) + rest, |bones|, bones[1..], rest);
    HeadTail(bones);
  }

  /** An encoded table followed by `rest` starts with its first bone's name,
      terminator and matrix. */
  lemma {:induction false} EncodeBoneRecordsFront(bones: seq<BoneRecord>, rest: Bytes)
    requires |bones| > 0
    requires forall i :: 0 <= i < |bones| ==> Fits(Floats(16), bones[i].matrix)
    ensures EncodeBoneRecords(bones) + rest ==
            bones[0].name + [0] + (Pack(Floats(16), bones[0].matrix) + (EncodeBoneRecords(bones[1..]) + rest))
  {
    var head := bones[0].name + [0];
    var packed := Pack(Floats(16), bones[0].matrix);
    var tail := EncodeBoneRecords(bones[1..]);
    AppendAssoc(head + packed, tail, rest);
    AppendAssoc(head, packed, tail + rest);
  }

  /** One unfolding of `ReadBoneRecords` once its first name and matrix are
      known. */
  lemma {:induction false} ReadBoneRecordsCons(b: BoneRecord, tail: Bytes, count: nat, more: seq<BoneRecord>, rest: Bytes)
    requires count > 0 && Readable(b.name) && Fits(Floats(16), b.matrix)
    requires ReadBoneRecords(tail, count - 1) == Ok(Parsed(more, rest))
    ensures ReadBoneRecords(b.name + [0] + (Pack(Floats(16), b.matrix) + tail), count) == Ok(Parsed([b] + more, rest))
  {
    ReadStrOfTerminated(b.name, Pack(Floats(16), b.matrix) + tail);
    ReadStructOfPack(Floats(16), b.matrix, tail);
  }

  /** The bytes of a layout table's entries. */
  function EncodeLayoutEntries(entries: seq<(Bytes, nat)>): Bytes
    requires forall i :: 0 <= i < |entries| ==> entries[i].1 < 256
  {
    if |entries| == 0 then []
    else entries[0].0 + [0] + [entries[0].1] + EncodeLayoutEntries(entries[1..])
  }

  lemma {:induction false} ReadLayoutEntriesOfEncoding(entries: seq<(Bytes, nat)>, rest: Bytes)
    requires forall i :: 0 <= i < |entries| ==> entries[i].1 < 256
    requires forall i :: 0 <= i < |entries| ==> Readable(entries[i].0)
    ensures ReadLayoutEntries(EncodeLayoutEntries(entries) + rest, |entries|) == Ok(Parsed(entries, rest))
  {
    if |entries| > 0 {
      var e := entries[0];
      var tail := EncodeLayoutEntries(entries[1..]) + rest;
      var head := e.0 + [0];
      assert EncodeLayoutEntries(entries) == head + [e.1] + EncodeLayoutEntries(entries[1..]);
      AppendAssoc(head + [e.1], EncodeLayoutEntries(entries[1..]), rest);
      AppendAssoc(head, [e.1], tail);
      ReadStrOfTerminated(e.0, [e.1] + tail);
      ReadOneOfByte(e.1, tail);
      ReadLayoutEntriesOfEncoding(entries[1..], rest);
      ReadLayoutEntriesCons(EncodeLayoutEntries(entries) + rest, |entries|, e.0, [e.1] + tail, e.1, tail,
                            entries[1..], rest);
      HeadTail(entries);
    } else {
      assert EncodeLayoutEntries(entries) + rest == rest;
    }
  }

  /** One unfolding of `ReadLayoutEntries` once its first name and width
      are known. */
  lemma {:induction false} ReadLayoutEntriesCons(s: Bytes, count: nat, name: Bytes, mid: Bytes, width: nat,
                                                 tail: Bytes, more: seq<(Bytes, nat)>, rest: Bytes)
    requires count > 0
    requires ReadStr(s) == Ok(Parsed(name, mid))
    requires ReadOne([U8], mid) == Ok(Parsed(width, tail))
    requires ReadLayoutEntries(tail, count - 1) == Ok(Parsed(more, rest))
    ensures ReadLayoutEntries(s, count) == Ok(Parsed([(name, width)] + more, rest))
  {
  }

  /** A table that names an attribute twice yields the later width, at the
      place of the first mention; the stride adds the surviving widths only. */
  lemma {:induction false} LayoutOfRepeatedName(a: Bytes, b: Bytes, w1: nat, w2: nat, w3: nat)
    requires a != b
    ensures OrderedMap.FromPairs([(a, w1), (b, w2), (a, w3)]) == [(a, w3), (b, w2)]
    ensures Stride(OrderedMap.FromPairs([(a, w1), (b, w2), (a, w3)])) == w3 + w2
  {
    var es := [(a, w1), (b, w2), (a, w3)];
    assert es[..2] == [(a, w1), (b, w2)];
    assert es[..2][..1] == [(a, w1)];
    assert [(a, w1)][..0] == [];
    assert OrderedMap.FromPairs([(a, w1)]) == [(a, w1)];
    assert OrderedMap.FromPairs(es[..2]) == [(a, w1), (b, w2)];
    assert OrderedMap.IndexOf([(a, w1), (b, w2)], a) == Some(0);
    assert [(a, w3), (b, w2)][1..] == [(b, w2)];
    assert Stride([(b, w2)]) == w2;
  }

  /** The attribute names the decoders look up in a vertex record, as the
      ASCII bytes of the names given beside them. */
  const PositionKey: Bytes := [0x76, 0x65, 0x72, 0x74, 0x65, 0x78, 0x50, 0x6F, 0x73, 0x69, 0x74, 0x69, 0x6F, 0x6E] // vertexPosition
  const NormalKey: Bytes := [0x76, 0x65, 0x72, 0x74, 0x65, 0x78, 0x4E, 0x6F, 0x72, 0x6D, 0x61, 0x6C] // vertexNormal
  const IndicesKey: Bytes := [0x76, 0x65, 0x72, 0x74, 0x65, 0x78, 0x42, 0x6F, 0x6E, 0x65, 0x49, 0x6E, 0x64, 0x69, 0x63, 0x65, 0x73] // vertexBoneIndices
  const WeightsKey: Bytes := [0x76, 0x65, 0x72, 0x74, 0x65, 0x78, 0x42, 0x6F, 0x6E, 0x65, 0x57, 0x65, 0x69, 0x67, 0x68, 0x74, 0x73] // vertexBoneWeights
  const TexCoordKey: Bytes := [0x76, 0x65, 0x72, 0x74, 0x65, 0x78, 0x54, 0x65, 0x78, 0x74, 0x75, 0x72, 0x65, 0x43, 0x6F, 0x6F, 0x72, 0x64, 0x69, 0x6E, 0x61, 0x74, 0x65] // vertexTextureCoordinate

  /** One texture coordinate as read.  The importer stores `(u, 1 - v)`;
      the flip is float arithmetic and is not modelled, so `v` is the raw
      word. */
  datatype Uv = Uv(u: nat, v: nat)

  /** `global_matrix @ mathutils.Vector(v)` with the 4x4 `global_matrix`:
      mathutils multiplies a 4x4 matrix only by a 4D vector or by a 3D one,
      which it extends with a 1; any other length raises ValueError. */
  predicate Transformable(v: seq<nat>) {
    |v| == 3 || |v| == 4
  }

  /** `u, v = coords`: a tuple that is not a pair raises ValueError. */
  function UnpackUv(coords: seq<nat>): (r: Result<Uv>)
    ensures r.Ok? <==> |coords| == 2
    ensures r.Ok? ==> [r.value.u, r.value.v] == coords
    ensures r.Err? ==> r.fault == UnpackMismatch
  {
    if |coords| != 2 then Err(UnpackMismatch) else Ok(Uv(coords[0], coords[1]))
  }

  /** `num_bones = read_one('<B')` followed by the bone table. */
  function ReadBoneTable(s: Bytes): (r: Result<Parsed<seq<BoneRecord>>>)
    ensures r.Ok? ==> |r.value.value| < 256
    ensures r.Ok? ==> forall i :: 0 <= i < |r.value.value| ==> |r.value.value[i].matrix| == 16
  {
    var count :- ReadOne([U8], s);
    ReadBoneRecords(count.rest, count.value)
  }

  /** Three values, one per corner of a triangle. */
  datatype Triple<T> = Triple(a: T, b: T, c: T)

  /** A triangle: the indices of its three corners' vertices. */
  type Face = Triple<nat>

  /** Polygon `p` of a triangle soup uses vertices `3p`, `3p+1` and `3p+2`. */
  function SoupFace(p: nat): (f: Face)
    ensures f.a == 3 * p && f.b == f.a + 1 && f.c == f.a + 2
  {
    Triple(3 * p, 3 * p + 1, 3 * p + 2)
  }

  /** The faces of a triangle soup: `[(3p, 3p+1, 3p+2) for p in range(n)]`. */
  function SoupFaces(polygons: nat): (faces: seq<Face>)
    ensures |faces| == polygons
    ensures forall p :: 0 <= p < polygons ==> faces[p] == SoupFace(p)
  {
    if polygons == 0 then [] else SoupFaces(polygons - 1) + [SoupFace(polygons - 1)]
  }

  /** What follows the metadata blocks: the layout table, the `'<L'` data
      size, and the vertex count derived from both. */
  datatype Geometry = Geometry(layout: Layout, vertexCount: nat)

  function ReadGeometry(s: Bytes): (r: Result<Parsed<Geometry>>)
    ensures r.Ok? ==> OrderedMap.Valid(r.value.value.layout)
    ensures r.Ok? ==> r.value.value.vertexCount % 3 == 0
    ensures r.Ok? ==> Stride(r.value.value.layout) > 0
  {
    var layout :- ReadLayout(s);
    var size :- ReadOne([U32], layout.rest);
    var count :- VertexCount(size.value, layout.value);
    Ok(Parsed(Geometry(layout.value, count), size.rest))
  }

  /** The part of the header both copies read alike before the optional
      record: the magic, the bone table and the first two metadata blocks.
      `tag` is the second block's tag. */
  datatype Prelude = Prelude(bones: seq<BoneRecord>, tag: nat)

  function ReadPrelude(data: Bytes): (r: Result<Parsed<Prelude>>)
    ensures ExpectStr(data, MeshMagic).Err? ==> r == Err(ExpectStr(data, MeshMagic).fault)
    ensures r.Ok? ==> |r.value.value.bones| < 256 && r.value.value.tag < 256
  {
    var afterMagic :- ExpectStr(data, MeshMagic);
    var bones :- ReadBoneTable(afterMagic);
    var meta1 :- ReadMeta(bones.rest, 9);
    var meta2 :- ReadMeta(meta1.rest, 12);
    Ok(Parsed(Prelude(bones.value, meta2.value.tag), meta2.rest))
  }

  /** The part after the optional record: the third metadata block and the
      geometry. */
  function ReadTail(s: Bytes): (r: Result<Parsed<Geometry>>)
    ensures r.Ok? ==> r.value.value.vertexCount % 3 == 0 && Stride(r.value.value.layout) > 0
    ensures r.Ok? ==> OrderedMap.Valid(r.value.value.layout)
    ensures |s| < 25 ==> r.Err?
  {
    var meta3 :- ReadMeta(s, 6);
    ReadGeometry(meta3.rest)
  }

  /** A vertex count divisible by 3 is three corners per triangle. */
  lemma {:induction false} ThirdOfTriples(n: nat)
    requires n % 3 == 0
    ensures 3 * (n / 3) == n
  {
  }

  /** Bytes per vertex record. */
  function RecordSize(layout: Layout): nat {
    4 * Stride(layout)
  }

  /** Bytes of `count` vertex records, added record by record;
      `BlockSizeIsProduct` shows it is `count * RecordSize(layout)`. */
  function BlockSize(count: nat, layout: Layout): nat {
    if count == 0 then 0 else BlockSize(count - 1, layout) + RecordSize(layout)
  }

  lemma {:induction false} BlockSizeIsProduct(count: nat, layout: Layout)
    ensures BlockSize(count, layout) == count * RecordSize(layout)
  {
    if count > 0 {
      BlockSizeIsProduct(count - 1, layout);
    }
  }

  lemma {:induction false} BlockSizeMonotone(i: nat, n: nat, layout: Layout)
    requires i <= n
    ensures BlockSize(i, layout) <= BlockSize(n, layout)
    decreases n
  {
    if i < n {
      BlockSizeMonotone(i, n - 1, layout);
    }
  }

  /** The first record, then the other `count - 1`. */
  lemma {:induction false} BlockSizeFront(count: nat, layout: Layout)
    requires count > 0
    ensures BlockSize(count, layout) == RecordSize(layout) + BlockSize(count - 1, layout)
  {
    if count > 1 {
      BlockSizeFront(count - 1, layout);
    }
  }

  /** The bytes of vertex `i` of a block of `count` vertices, read as a
      record: the first record, or a slot of the block after it. */
  function Slot(s: Bytes, layout: Layout, count: nat, i: nat): (record: Record)
    requires i < count && |s| >= BlockSize(count, layout)
    decreases i
  {
    BlockSizeFront(count, layout);
    if i == 0 then ReadRecord(s, layout).value.value
    else Slot(s[RecordSize(layout)..], layout, count - 1, i - 1)
  }

  /** Slot `i` is the record read at byte offset `BlockSize(i, layout)`,
      which lies inside the block. */
  lemma {:induction false} SlotAt(s: Bytes, layout: Layout, count: nat, i: nat)
    requires i < count && |s| >= BlockSize(count, layout)
    ensures BlockSize(i, layout) + RecordSize(layout) <= |s|
    ensures Slot(s, layout, count, i) == ReadRecord(s[BlockSize(i, layout)..], layout).value.value
    decreases i
  {
    BlockSizeFront(count, layout);
    if i > 0 {
      SlotAt(s[RecordSize(layout)..], layout, count - 1, i - 1);
      SlotAtNext(s, layout, count, i);
    } else {
      assert s[BlockSize(0, layout)..] == s;
    }
  }

  /** The induction step of `SlotAt`. */
  lemma {:induction false} SlotAtNext(s: Bytes, layout: Layout, count: nat, i: nat)
    requires 0 < i < count && |s| >= BlockSize(count, layout)
    requires RecordSize(layout) <= |s|
    requires var t := s[RecordSize(layout)..];
             |t| >= BlockSize(count - 1, layout) &&
             BlockSize(i - 1, layout) + RecordSize(layout) <= |t| &&
             Slot(t, layout, count - 1, i - 1) == ReadRecord(t[BlockSize(i - 1, layout)..], layout).value.value
    ensures BlockSize(i, layout) + RecordSize(layout) <= |s|
    ensures Slot(s, layout, count, i) == ReadRecord(s[BlockSize(i, layout)..], layout).value.value
  {
    var b := RecordSize(layout);
    BlockSizeFront(i, layout);
    var t := s[b..][BlockSize(i - 1, layout)..];
    assert t == s[BlockSize(i, layout)..];
    assert Slot(s, layout, count, i) == ReadRecord(t, layout).value.value;
  }

  /** `count` vertices read one after another, each record turned into a
      vertex by `make`, which receives the vertex's index. */
  function ReadVertices<V>(s: Bytes, layout: Layout, first: nat, count: nat,
                           make: (nat, Record) -> Result<V>): (r: Result<Parsed<seq<V>>>)
    ensures r.Ok? ==> |r.value.value| == count
    ensures r.Ok? ==> |s| >= BlockSize(count, layout)
    ensures r.Ok? ==> r.value.rest == s[BlockSize(count, layout)..]
    ensures r.Ok? ==> forall i :: 0 <= i < count ==>
              make(first + i, Slot(s, layout, count, i)) == Ok(r.value.value[i])
    decreases count
  {
    if count == 0 then Ok(Parsed([], s))
    else
      match ReadRecord(s, layout)
      case Err(f) => Err(f)
      case Ok(record) =>
        match make(first, record.value)
        case Err(f) => Err(f)
        case Ok(v) =>
          match ReadVertices(record.rest, layout, first + 1, count - 1, make)
          case Err(f) => Err(f)
          case Ok(more) =>
            ReadVerticesRest(s, layout, count);
            VerticesCons(s, layout, first, count, make, v, more.value);
            Ok(Parsed([v] + more.value, more.rest))
  }

  /** The vertex made from the first record, followed by the vertices made
      from the slots of the rest of the block, are made from the slots of
      the whole block. */
  lemma {:induction false} VerticesCons<V>(s: Bytes, layout: Layout, first: nat, count: nat,
                        make: (nat, Record) -> Result<V>, v: V, more: seq<V>)
    requires 0 < count && |s| >= BlockSize(count, layout)
    requires ReadRecord(s, layout).Ok? && make(first, ReadRecord(s, layout).value.value) == Ok(v)
    requires |more| == count - 1
    requires var t := ReadRecord(s, layout).value.rest;
             |t| >= BlockSize(count - 1, layout) &&
             forall i :: 0 <= i < count - 1 ==> make(first + 1 + i, Slot(t, layout, count - 1, i)) == Ok(more[i])
    ensures forall i :: 0 <= i < count ==> make(first + i, Slot(s, layout, count, i)) == Ok(([v] + more)[i])
  {
    var t := ReadRecord(s, layout).value.rest;
    assert t == s[RecordSize(layout)..];
    forall i | 0 <= i < count
      ensures make(first + i, Slot(s, layout, count, i)) == Ok(([v] + more)[i])
    {
      if i > 0 {
        SlotNext(s, t, layout, count, i);
        ConsIndex(v, more, i);
      }
    }
  }

  /** Slot `i` of a block is slot `i - 1` of the block after its first record. */
  lemma {:induction false} SlotNext(s: Bytes, t: Bytes, layout: Layout, count: nat, i: nat)
    requires 0 < i < count && |s| >= BlockSize(count, layout)
    requires RecordSize(layout) <= |s| && t == s[RecordSize(layout)..] && |t| >= BlockSize(count - 1, layout)
    ensures Slot(s, layout, count, i) == Slot(t, layout, count - 1, i - 1)
  {
  }

  lemma {:induction false} ReadVerticesRest(s: Bytes, layout: Layout, count: nat)
    requires count > 0
    requires |s| >= RecordSize(layout)
    requires |s[RecordSize(layout)..]| >= BlockSize(count - 1, layout)
    ensures |s| >= BlockSize(count, layout)
    ensures s[RecordSize(layout)..][BlockSize(count - 1, layout)..] == s[BlockSize(count, layout)..]
  {
    BlockSizeFront(count, layout);
  }

  /** Reading a block with `f` succeeds whenever reading it with `g` does,
      if `f` accepts every record `g` accepts. */
  lemma {:induction false} ReadVerticesTransfer<V, W>(s: Bytes, layout: Layout, first: nat, count: nat,
                                                    f: (nat, Record) -> Result<V>, g: (nat, Record) -> Result<W>)
    requires ReadVertices(s, layout, first, count, g).Ok?
    requires forall i, record :: g(i, record).Ok? ==> f(i, record).Ok?
    ensures ReadVertices(s, layout, first, count, f).Ok?
    decreases count
  {
    if count > 0 {
      var record := ReadRecord(s, layout).value;
      ReadVerticesTransfer(record.rest, layout, first + 1, count - 1, f, g);
    }
  }
}
