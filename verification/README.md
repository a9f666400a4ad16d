# Gladius unit importer: decoders and resolver

This project models the part of the Gladius unit importer that does not talk to
Blender. That part has five pieces:

- **The byte reader.** `read_str`, `read_struct` and `read_one` form a
  sequential little-endian cursor over the bytes of a file.
- **The `.msh` decoder.** It reads the magic `MSH1.0`, the bone table, three
  tagged metadata blocks (the second may carry a bounding box), a vertex layout
  that the file itself declares, and a triangle soup.
- **The root copy's vertex welder and face rebuild.** Every corner is merged into
  a representative vertex. Faces are then remapped, and degenerate or repeated
  faces are dropped.
- **The `.anm` decoder.** It reads the magic `ANM1.0`, a `<BLL` header, and per
  bone a name followed by ten floats per frame.
- **The unit resolver.** `read_xml` checks the root tag of a unit document.
  `load_unit` walks the unit's models, weapons and actions. `load_animations`
  turns each clip call into requests for `.anm` files.

The repository ships two copies of the importer: the newer `importer.py` and
the older `blender_gladius/importer.py`. Both are modelled. The readers and the
`.anm` decoder are byte-identical in the two copies, so one model serves both.
The two `.msh` decoders and the two resolvers are separate modules, and lemmas
relate each pair.

The style is functional throughout:

- A decoder takes a byte sequence and returns a `Result` carrying the value
  and the unread rest.
- A fault the Python code raises becomes an `Err` naming it: `Truncated`
  (short read), `BadMagic`, `NotOneValue`, `DivisionByZero`, `NotTriangles`,
  `MissingKey`, `IndexOutOfRange`, `UnpackMismatch`, `BadVectorSize` (a
  4x4 matrix times a vector of neither 3 nor 4 items), `BadInteger`,
  `StopParsing`, `NoneValue` or `Diverges`.
- Messages appended to `self.messages` are `Diagnostic` values, each with a
  WARNING or ERROR severity.
- Floats stay as raw 32-bit words. Only the facts the code branches on are
  interpreted from their bits: zero, positive, NaN, infinity, `int()`
  truncation, and the order `sorted` uses.
- The neighbour search of the KD-tree and the normal test of the welder are
  parameters (`Welder.Tolerances`).
- File existence and file contents form a map from path to bytes
  (`AnimDecoder.Disk`).
- The armature's bone names are a set.
- An XML document is an already-parsed `XmlTree.Element`.

Module layout:

| file | module | models |
|---|---|---|
| base.dfy | Base | `Option`, `Result`, the faults |
| bytes.dfy | Bytes | bytes and little-endian integers |
| utf8.dfy | Utf8 | the strict UTF-8 check of `str(..., 'utf8')` (RFC 3629) |
| float32.dfy | Float32 | IEEE 754 single-precision bit fields, `int()` of a float |
| cursor.dfy | Cursor | `read_str`, `read_struct`, `read_one` |
| ordered_map.dfy | OrderedMap | Python `dict` with insertion order |
| text.dfy | Text | ASCII `lower`/`upper`, `str(n)`, `int(s)` |
| skin.dfy | Skin | `zip`, `sorted` of (index, weight) pairs, zero filtering |
| diagnostics.dfy | Diagnostics | the message list |
| mesh_common.dfy | MeshCommon | the byte grammar both `.msh` decoders share |
| mesh_decoder.dfy | MeshDecoder | the root copy's `.msh` decoding, lines 143-214 |
| welder.dfy | Welder | the root copy's vertex merge, lines 216-251 |
| faces.dfy | Faces | the root copy's face rebuild, lines 252-272 |
| vertex_groups.dfy | VertexGroups | grouping skinning pairs by bone name |
| mesh_loader.dfy | MeshLoader | the whole root `load_msh_file` (decode, weld, groups) |
| legacy_mesh.dfy | LegacyMesh | the older `load_msh_file` |
| anim_decoder.dfy | AnimDecoder | `load_anm_file` (both copies) |
| clips.dfy | Clips | `load_animations` (both copies) |
| xml_tree.dfy | XmlTree | the parsed document, `get`/`find`/`iterfind`, `read_xml` |
| resolver.dfy | Resolver | `load_unit` of both copies (`Copy` selects one) |
| legacy_resolver.dfy | LegacyResolver | properties of the older `load_unit` and its agreement with the root one |

Three facts about the code that are easy to miss:

- **The magic is NUL-terminated.** The magic is read with `read_str`, so a file
  must spell `MSH1.0` or `ANM1.0` followed by a zero byte
  (`Cursor.ExpectStr`).
- **`data_size` counts floats.** It is divided by the sum of the layout
  widths, which are float counts, and the loop then reads
  `vertex_cnt * stride` floats (`MeshCommon.VertexCount`).
- **Idle clips can be requested more than once.** In both copies the unit loop
  neither consults nor deduplicates `loaded_animations`, so two units with the
  same idle path request it twice (`LegacyResolver.IdleRequestedTwice`). The
  action loop of the older copy skips registered paths, so it requests each
  action path at most once (`LegacyResolver.ActionPathsOnce`).

## Model

| member | source | states |
|---|---|---|
| Cursor.ReadStr | importer.py:14-18 | reading a string fails with `Diverges` exactly when no zero byte remains (the Python loop never ends); otherwise the input is the string, one zero byte, then the rest; the string holds no zero byte and must be valid UTF-8, otherwise `BadUtf8` |
| Cursor.ReadStrOfTerminated | importer.py:15-18 | round trip: a valid zero-free name followed by a zero byte and anything reads back as exactly that name and that rest |
| Cursor.ExpectStr | importer.py:150-151 | the magic check succeeds exactly when the string read equals the expected one; it then consumes the expected bytes plus the terminator; a read fault passes through and any other string is `BadMagic` |
| Cursor.ReadStruct | importer.py:21-23 | `read_struct` succeeds exactly when `calcsize(fmt)` bytes remain, yields one value per format item, and leaves the bytes after them; otherwise it is `Truncated` |
| Cursor.ReadStructOfPack | importer.py:22-23 | round trip: reading the packing of values that fit their widths gives those values back and leaves the rest untouched |
| Cursor.UnpackPack | importer.py:23 | `struct.unpack` inverts `struct.pack` for in-range values |
| Cursor.ReadStructAppend | importer.py:21-23 | reading a format `f1 + f2` succeeds exactly when reading `f1` and then `f2` does, with the two value lists concatenated |
| Cursor.ReadOne | blender_gladius/importer.py:27-30 | `read_one` succeeds exactly when the format has one item and its bytes remain; a format of several items is `NotOneValue` (the `assert len(p) == 1`), a short input `Truncated`; the value is below 256^width |
| Cursor.ReadOneOfByte | importer.py:26-29 | `read_one('<B')` of a byte followed by anything returns that byte and the rest |
| Cursor.Floats | importer.py:159 | a `'<kf'` format has k items and takes 4k bytes |
| Bytes.LeValueOfLeBytes | importer.py:23 | decoding the little-endian bytes of a number gives the number back |
| Bytes.LeBytesOfLeValue | importer.py:23 | encoding the little-endian value of a byte string gives the bytes back |
| Utf8.EncodeIsValid | importer.py:18 | the UTF-8 encoding of any string passes the decoder's check |
| Utf8.AsciiIsValid | blender_gladius/importer.py:19 | bytes below 0x80 always decode |
| Utf8.RejectsMalformed | importer.py:18 | a stray continuation byte, an encoded surrogate, an overlong form and a code point above U+10FFFF are refused |
| Float32.Truncate | importer.py:291 | `int()` of a float fails exactly on NaN (`NotANumber`) and infinities (`Infinite`); otherwise it keeps the sign and has the integer part of the absolute value as magnitude; zeros and magnitudes below one give 0 |
| Float32.Magnitude | importer.py:291 | the integer part of a finite float's absolute value: 0 below one, the floor of `significand / 2^(150-e)` for a fractional value, and the exact whole number from exponent 150 on |
| Float32.TruncateOfNat | importer.py:291 | `int(float(n)) == n` for every n below 2^24, the range of a bone index stored as a float |
| Float32.TruncateExamples | importer.py:291 | `int(1.0) == 1`, `int(-1.5) == -1`, `int(2.0**24) == 2**24`, and 3.0 is `0x40400000` |
| Float32.EqualTruncate | importer.py:291 | floats that compare equal, including +0 and -0, truncate alike |
| Float32.OrderKeyEquality | importer.py:205 | for non-NaN floats the integer sort key is equal exactly when the floats compare equal |
| Float32.Fields | importer.py:206 | a word is its sign, exponent and fraction fields, each in range |
| Skin.Zip | importer.py:205 | `zip` stops at the shorter list and pairs equal positions |
| Skin.ZipOfComponents | blender_gladius/importer.py:176 | zipping the first and second components of a pair list gives the list back |
| Skin.Insert | importer.py:205 | inserting into a sorted pair list keeps it sorted and adds exactly that pair |
| Skin.Sort | importer.py:205 | `sorted` of (index, weight) pairs returns a sorted permutation of its input, ordered by index and then by weight |
| Skin.SortOfSorted | importer.py:205 | sorting an already sorted list changes nothing |
| Skin.StableOnTies | importer.py:205 | two pairs that compare equal keep their order |
| Skin.NonZeroCounts | importer.py:206-207 | dropping zero weights removes every copy of a zero-weight pair and keeps every copy of the others |
| Skin.NonZeroSorted | importer.py:205-207 | dropping zero weights from a sorted list leaves it sorted |
| Skin.RealPairs | importer.py:205-209 | the pairs a root vertex appends are sorted, have no zero weight, and are exactly the zipped pairs whose weight is not zero |
| Text.Lower | importer.py:403 | `lower()` keeps the length and maps each character by the ASCII case rule |
| Text.CapitalizeFirst | importer.py:408 | `s[:1].upper() + s[1:]` upper-cases the first character only |
| Text.NatToString | importer.py:321 | `str(idx)` is a non-empty string of decimal digits without a leading zero |
| Text.ParseIntOfNatToString | importer.py:317 | `int(str(n)) == n` |
| Text.NatToStringInjective | importer.py:321 | distinct indices are spelled differently |
| Text.ParseIntAccepts | importer.py:317 | `int()` accepts surrounding whitespace, a sign and single underscores between digits |
| Text.ParseIntRejects | importer.py:317 | `int()` refuses the empty string, doubled or leading underscores, letters, and a leading U+001C, which it does not strip |
| Text.ParseIntStripsUnicodeSpace | importer.py:317 | `int()` also strips non-ASCII whitespace, such as the no-break space and the ideographic space |
| OrderedMap.Put | importer.py:377 | assigning a key sets it; every other key keeps its value; a new key goes last and an existing one keeps its place |
| OrderedMap.Append | importer.py:292 | `setdefault(k, []).append(x)` extends k's list by x, first creating k last when absent, and leaves other keys alone |
| OrderedMap.FromPairsMeaning | importer.py:186 | a dict built from pairs maps each key to its last value and orders keys by first occurrence |
| OrderedMap.LastValueIn | importer.py:186 | a key has a last value exactly when it occurs, and that pair occurs |
| MeshCommon.ReadMeta | importer.py:172-175 | a metadata block is one tag byte then `width` floats: it succeeds exactly when 1 + 4·width bytes remain and consumes exactly those |
| MeshCommon.ReadBoneRecordsOfEncoding | importer.py:157-159 | round trip: an encoded bone table (name, zero byte, 16 floats per bone) reads back as those bones and the rest |
| MeshCommon.ReadLayoutEntriesOfEncoding | importer.py:185-186 | round trip: an encoded layout table (name, zero byte, width byte per entry) reads back as those entries and the rest |
| MeshCommon.LayoutOfRepeatedName | importer.py:186 | a repeated name in the layout keeps its first position and takes its last width, so the stride counts only that width |
| MeshCommon.VertexCount | importer.py:187-191 | an empty stride is `DivisionByZero`; a floor quotient not divisible by 3 is `NotTriangles`; otherwise the count is divisible by 3 and is the floor of `data_size` over the stride |
| MeshCommon.ReadRecord | importer.py:200 | one vertex record succeeds exactly when 4·stride bytes remain, consumes exactly those bytes, and is otherwise `Truncated` |
| MeshCommon.ReadRecordShape | importer.py:200 | a record read has the layout's keys in layout order, each with as many floats as its width |
| MeshCommon.UnpackUv | importer.py:212 | `u, v = ...` succeeds exactly on two values and yields them; anything else is `UnpackMismatch` |
| MeshCommon.SoupFaces | importer.py:197-214 | the faces of the soup are `[3p, 3p+1, 3p+2]` for p below the polygon count |
| MeshCommon.ReadPrelude | importer.py:150-175 | a bad magic stops decoding with that fault; the bone table has fewer than 256 entries and the second tag is a byte |
| MeshCommon.ReadTail | importer.py:183-191 | the geometry read after the optional record has a positive stride, a vertex count divisible by 3 and distinct layout names; fewer than 25 bytes cannot hold it |
| MeshCommon.ReadVertices | importer.py:197-211 | reading `count` vertices succeeds only when `count` whole records remain, consumes exactly those, and yields `count` values; vertex i is made from index `first + i` and record slot i |
| MeshCommon.SlotAt | importer.py:197-200 | record slot i is the record read at byte offset `BlockSize(i)`, in file order, and lies inside the block |
| MeshCommon.BlockSizeIsProduct | importer.py:197-200 | the bytes of `count` records are `count` times the bytes of one record |
| MeshDecoder.Names | importer.py:158-160 | `bone_names` lists every file bone's name in file order |
| MeshDecoder.NewBones | importer.py:157-169 | only a file bone not named like the parent creates a bone; every such bone is created, parented to the parent bone |
| MeshDecoder.CreatedBonesMeaning | importer.py:170 | `created_bones` holds each file bone name once, in first-occurrence order, mapped to itself |
| MeshDecoder.CreatedBonesGet | importer.py:170 | every file bone name, reused or not, is a key of `created_bones` |
| MeshDecoder.ReadOptionalBBox | importer.py:176-182 | the bounding box is read exactly when the second tag is 2; otherwise nothing is consumed |
| MeshDecoder.ReadBBox | importer.py:178-182 | the bounding box has a 3-float position, a 4-float rotation and a 3-float scale |
| MeshDecoder.SkinLists | importer.py:36-37 | a root vertex's bone ids and weights start with four default zeros, followed by its real pairs |
| MeshDecoder.MakeVertex | importer.py:200-213 | a record without `vertexPosition` is `MissingKey`; a position or normal of neither 3 nor 4 floats is `BadVectorSize` (the `ValueError` of the 4x4 matrix product), raised before a texture coordinate of the wrong width; normal, skinning lists and texture coordinate default when absent and are copied when present |
| MeshDecoder.ReadHeader | importer.py:150-191 | a bad magic stops with that fault; an accepted header has fewer than 256 bones and a vertex count divisible by 3 |
| MeshDecoder.ReadCorners | importer.py:197-213 | corner i is the vertex made from the i-th record; there is one vertex and one UV per counted corner |
| MeshDecoder.ReadCornersShaped | importer.py:201-209 | every decoded corner carries the four default skinning slots and equally long id and weight lists |
| MeshDecoder.DecodeMesh | importer.py:143-214 | the decoded soup has three vertices and UVs per face, faces `[3p, 3p+1, 3p+2]`, `created_bones` built from the names, and new bones parented and never named like the parent |
| Welder.FirstGroup | importer.py:226-233 | the group key is the founder of the FIRST neighbour, in KD-tree order, other than the vertex itself that founded a group: no earlier neighbour qualifies; none means the vertex founds its own |
| Welder.FirstMatch | importer.py:239-246 | the representative is the FIRST stored entry of the group that passes the merge test: every earlier entry fails it; none when no entry passes |
| Welder.GroupOfFounded | importer.py:229-233 | the group map holds only founders, each mapped to itself, and only grows |
| Welder.Step | importer.py:225-251 | one vertex adds one `idx2merged` entry and keeps every earlier entry and representative |
| Welder.StepFounds | importer.py:247-250 | a vertex without a matching entry becomes a new representative with the next index |
| Welder.StepJoins | importer.py:245 | a vertex that matches an entry takes that entry's index and adds no representative |
| Welder.Weld | importer.py:221-251 | `idx2merged` has one entry per vertex, each below the representative count; representatives are strictly increasing and map to their own index; each vertex's representative is at or before it and is the vertex itself or passed the merge test against it |
| Welder.WeldFirst | importer.py:247-250 | the first vertex always founds its own group and becomes representative 0 |
| Welder.WeldIsolated | importer.py:225-233 | with no neighbours in range, welding is the identity |
| Welder.WeightsIgnored | importer.py:237 | `to_4d()` keeps the four default zero weights, so the weld does not depend on the real weights |
| Welder.WeldTwins | importer.py:239-246 | two mutual neighbours that pass the merge test weld into one vertex |
| Welder.WeldKeepsDifferentIds | importer.py:242 | vertices whose bone id tuples differ are never merged |
| Faces.SortedKey | importer.py:262 | the face key lists the corners in ascending order |
| Faces.SortedKeyIff | importer.py:262-263 | two faces share a key exactly when they have the same corners, counting repeats |
| Faces.Rebuild | importer.py:252-268 | every kept face has three distinct corners and is its source face renamed; sources stay in input order; no two kept faces share a key; every proper face's key is kept, and a face is kept only if it is the first with its key |
| Faces.Gather | importer.py:267-268 | each kept face's UVs and normals are the ones of its three original corners |
| Faces.Flatten | importer.py:279 | flattening gives three items per face |
| Faces.FlattenAt | importer.py:279 | item 3p+k of the flat list is corner k of face p |
| Faces.SoupGather | importer.py:272 | without welding, flattening the soup's corner data gives the data in corner order |
| Faces.SoupNormals | importer.py:272 | without welding, the corner normals are the vertices' normals in order |
| MeshLoader.Soup | importer.py:271-272 | with merging off the surface is the decoded soup, each corner with its own normal |
| MeshLoader.Pick | importer.py:269 | `[vertex_list[i] for i in merged_vert_ids]` picks exactly the listed vertices |
| MeshLoader.WeldedCorners | importer.py:252-269 | every corner of a welded face is the representative of the original corner, passed the merge test against it, and is that representative's vertex |
| MeshLoader.Assignments | importer.py:289-292 | every skinning pair of every final vertex, default slots included, is looked up by name; this fails exactly when some lookup does |
| MeshLoader.Groups | importer.py:294-300 | one vertex group per created bone, in order, holding that bone's collected pairs or none |
| MeshLoader.GroupWeights | importer.py:292-300 | a vertex's weight in a bone's group is the weight of the last pair naming that bone and vertex |
| MeshLoader.Load | importer.py:143-300 | a decoding fault stops the load; with merging on, a position that is not 3 floats wide is `BadVectorSize`, the `ValueError` of `KDTree.insert` at line 219, raised before any bone lookup; the surface is consistent; the new bones are the decoder's; the groups follow `created_bones`; with merging off the surface is the soup |
| MeshLoader.NoBonesFails | importer.py:291 | a mesh with vertices but no bones cannot load: the default slot 0 indexes an empty `bone_names`, unless the KD-tree of lines 217-219 has already refused a position |
| MeshLoader.BuildKeepsFirst | importer.py:247-250 | vertex 0 is always kept, as the first vertex |
| MeshLoader.FirstVertexFails | importer.py:289-291 | with no bone names the first vertex's lookup is `IndexOutOfRange` |
| VertexGroups.PyIndex | importer.py:291 | Python indexing succeeds exactly for -len ≤ i < len, otherwise it is `IndexOutOfRange` |
| VertexGroups.PyIndexFromEnd | importer.py:291 | a negative index counts from the end |
| VertexGroups.BoneName | importer.py:291 | `bone_names[int(bone_idx)]`: the truncation fault, or Python indexing of the truncated value |
| VertexGroups.BoneNameOfIndex | importer.py:291 | a bone index stored as the float of i names bone i, and an index past the table is `IndexOutOfRange` |
| VertexGroups.BoneNameOfZero | importer.py:291 | a zero index names the first bone, and fails when there is none |
| VertexGroups.AssignVertex | blender_gladius/importer.py:176-179 | every pair is looked up and the first failed lookup is the fault; with filtering only positive weights remain, otherwise every pair in order |
| VertexGroups.AssignVertexPositive | blender_gladius/importer.py:178-179 | with filtering, the kept pairs are exactly the pairs with positive weight |
| VertexGroups.Positive | blender_gladius/importer.py:178 | a pair is kept exactly when its weight is positive |
| VertexGroups.WeightsForFrom | importer.py:292 | every (vertex, weight) collected for a bone comes from a pair naming it |
| VertexGroups.CollectMeaning | importer.py:288-292 | collection keys bones in first-appearance order, and each bone's list is its pairs in order |
| VertexGroups.MembersMeaning | importer.py:299-300 | adding with `'REPLACE'` leaves each vertex with its last weight |
| LegacyMesh.ReadExtra | blender_gladius/importer.py:150-152 | the older optional record is one string and 11 floats |
| LegacyMesh.ExtraLikeBBox | blender_gladius/importer.py:150-152 | the older record (string + 11 floats) succeeds, fails and ends exactly where the root copy's bounding box does |
| LegacyMesh.OptionalAgree | blender_gladius/importer.py:148-152 | whatever the second tag, the optional records of both copies succeed and end alike |
| LegacyMesh.HeadersAgree | blender_gladius/importer.py:127-161 | the two copies accept the same headers, read the same bones and geometry, and fail with the same fault |
| LegacyMesh.Require | blender_gladius/importer.py:173 | `vertex_data[key]` succeeds exactly when the key is present; otherwise it is `MissingKey` |
| LegacyMesh.MakeCorner | blender_gladius/importer.py:172-183 | faults in statement order: a missing position, then a position of neither 3 nor 4 floats (`BadVectorSize`), then missing bone lists, an unknown bone, a missing or badly sized texture coordinate, a missing normal and a normal of the wrong width; otherwise the corner copies the fields, and its group pairs are the positive-weight lookups |
| LegacyMesh.AllNew | blender_gladius/importer.py:134-144 | every file bone creates a new bone, with no reuse, parented to the parent bone |
| LegacyMesh.ReadCorners | blender_gladius/importer.py:169-184 | corner i comes from the i-th record; there is one corner per counted vertex |
| LegacyMesh.ReadCornersWellMade | blender_gladius/importer.py:172-179 | every group pair of corner i has vertex index `3p+idx = i`, a known bone and a positive weight |
| LegacyMesh.GroupPairsWellMade | blender_gladius/importer.py:169-179 | all group pairs name vertices below the corner count, known bones and positive weights |
| LegacyMesh.NamedGroups | blender_gladius/importer.py:199-202 | each collected bone needs a `created_bones` entry, else `MissingKey`; groups follow collection order |
| LegacyMesh.NamedGroupsSelf | blender_gladius/importer.py:199-202 | for bones of the file the lookup always succeeds and names the group after the bone |
| LegacyMesh.GroupsFromPairs | blender_gladius/importer.py:165-179 | every collected group names a file bone and holds in-range vertices with positive weights |
| LegacyMesh.DecodeLegacy | blender_gladius/importer.py:120-202 | the decoded mesh has three positions, normals and UVs per face `[3p, 3p+1, 3p+2]`, one new bone per file bone, and groups with positive weights on in-range vertices |
| LegacyMesh.CornerAcceptedByRoot | blender_gladius/importer.py:173-183 | a record the older copy accepts is accepted by the root copy with the same position, normal and UV |
| LegacyMesh.LegacyAcceptedByRoot | blender_gladius/importer.py:120-184 | a file the older copy decodes is decoded by the root copy with the same corner positions and normals |
| AnimDecoder.ReadHeader | importer.py:335 | the `<BLL` header succeeds exactly when 9 bytes remain and consumes exactly them |
| AnimDecoder.ReadFrame | importer.py:355-357 | a frame is 3 + 4 + 3 floats: it succeeds exactly when 40 bytes remain and consumes exactly them |
| AnimDecoder.ReadFrames | importer.py:354-357 | `num_frames` frames succeed exactly when 40·`num_frames` bytes remain and consume exactly them |
| AnimDecoder.WFirst | importer.py:360 | the quaternion moves the file's fourth component first |
| AnimDecoder.Keys | importer.py:354-364 | one key per frame, numbered from 0, carrying that frame's position, reordered rotation and scale |
| AnimDecoder.MakeTrack | importer.py:338-364 | a bone known to the skeleton gets one key per frame; an unknown one gets none |
| AnimDecoder.Warnings | importer.py:353 | each warning names the file and an unknown bone |
| AnimDecoder.ReadTracks | importer.py:337-364 | one track per bone; known or not, every bone consumes its frames; each unknown bone adds one warning, even when a later read fails |
| AnimDecoder.LoadAnm | importer.py:323-364 | a missing file adds one WARNING and reads nothing; a bad magic fails with no message; every message is a WARNING about an unknown bone; a success spans frames `0..num_frames-1` |
| AnimDecoder.ReadFrameOfEncoded | importer.py:355-357 | round trip for one frame |
| AnimDecoder.ReadFramesOfEncoded | importer.py:354-357 | round trip for a frame list |
| AnimDecoder.ReadTracksOfEncoded | importer.py:337-357 | round trip for the track list: the encoded tracks read back, with one warning per unknown bone |
| AnimDecoder.LoadAnmOfEncoded | blender_gladius/importer.py:217-258 | round trip for a whole file: the action has the given name, frames `0..frameCount-1`, and tracks keyed exactly for the known bones |
| AnimDecoder.HeaderOfEncoded | importer.py:328-335 | the magic and the packed header of a written file read back |
| Clips.CountValue | importer.py:317 | `int(count)` is the number itself or Python's parse of the text (the whitespace `int()` strips, a sign, underscores between ASCII digits), else `BadInteger` |
| Clips.AnimationPath | importer.py:318 | the path is `Video/Animations/`, the stem, then `.anm` |
| Clips.Series | importer.py:320-321 | the numbered series has one request per index, in index order |
| Clips.ClipRequests | importer.py:316-321 | no count or a count of 1 makes one request named name+suffix from filename+suffix; any other valid count n makes max(n, 0) numbered requests; an unparsable count is `BadInteger` |
| Clips.NumberedDistinct | importer.py:321 | different indices give different clip names and different paths |
| Clips.ClipRequestsDistinct | importer.py:316-321 | one call never requests the same name or path twice |
| Clips.SpelledCountAgrees | importer.py:317 | a count spelled in decimal acts as the number |
| Clips.SingleClipExample | blender_gladius/importer.py:211-212 | count "1" with suffix "Gun" asks for `idleGun` from `Video/Animations/Units/TankGun.anm` |
| Clips.NumberedClipsExample | blender_gladius/importer.py:213-215 | count "2" places the index after the suffix in the name and before it in the file |
| Clips.OddCountsExample | importer.py:317-320 | count "0" requests nothing; count "two" is `BadInteger` |
| Clips.Present | importer.py:324 | the requests that load are exactly those whose file exists |
| Clips.LoadRequests | importer.py:318-326 | all messages are WARNINGs; the actions made are named after the requests whose file exists, in order |
| Clips.LoadRequestsReportsMissing | importer.py:324-326 | each missing file adds its warning, and every missing-file warning names a requested path that does not exist |
| Clips.LoadAnimations | importer.py:316-321 | a bad count raises before any file is read; otherwise the requests are loaded in order |
| XmlTree.Get | importer.py:372 | `get` is absent exactly when the attribute is, and otherwise returns its value |
| XmlTree.FindAll | importer.py:378 | `iterfind(tag)` yields exactly the children with that tag |
| XmlTree.Find | importer.py:370 | `find(tag)` is a child with that tag, and none exactly when no child has it |
| XmlTree.FindIsFirst | importer.py:370 | `find` is the first child `iterfind` lists |
| XmlTree.ReadXml | importer.py:71-77 | a wrong root tag appends exactly one ERROR and raises `StopParsing`; a right one adds nothing |
| XmlTree.WrongRootStops | blender_gladius/importer.py:48-54 | the root is accepted exactly when its tag is the expected one, and a rejection does not depend on the rest of the document |
| Resolver.CountOf | importer.py:376 | an absent count attribute is `None`; a present one is its text |
| Resolver.Request | importer.py:376-377 | a clip call appends one step and registers the path with its name and count; a new path goes last in the registry |
| Resolver.Unit | importer.py:370-377 | a unit without `material` or `mesh` raises, and nothing is added |
| Resolver.UnitSteps | importer.py:371-377 | a unit makes its mesh call, then its idle call when `idleAnimation` is non-empty, registering the path as `idle` |
| Resolver.Units | importer.py:370-377 | the unit loop succeeds exactly when every unit has both `material` and `mesh` |
| Resolver.ParentBone | importer.py:386-390 | an empty or absent `bone` means no parent; a bone the armature lacks is `MissingKey` |
| Resolver.WeaponType | importer.py:381-396 | no `mesh`: skipped; a bad bone raises; a mesh call is made only when mesh and material are both non-empty, and then a non-empty suffix is collected; no clip is registered |
| Resolver.Weapons | importer.py:378-396 | the weapon loop fails exactly when some weapon with a mesh names an unknown bone |
| Resolver.ClipName | importer.py:407-408 | the clip name is the action tag plus the key without `animation`, first letter upper-cased |
| Resolver.Attribute | importer.py:402-415 | only keys ending in `animation` (any case) are used; a registered path is skipped; otherwise one clip call; the root copy queues Begin/End only for paths ending in move or levitate |
| Resolver.Existing | importer.py:417-418 | an extra is kept exactly when its file exists |
| Resolver.ExtraSteps | importer.py:419 | every extra is loaded with count 1 |
| Resolver.RunExtras | importer.py:416-420 | the calls the extras make are exactly those whose file exists, in order |
| Resolver.RunExtrasRegisters | importer.py:420 | every extra loaded is registered and no earlier entry is lost |
| Resolver.ModelsOf | importer.py:398-399 | only `model` children of the actions are visited |
| Resolver.ReplayOne | importer.py:423-424 | one suffix re-requests every registry entry, in registry order, with its name and count |
| Resolver.Replay | importer.py:422-424 | the replay makes one call per suffix and entry |
| Resolver.ReplayAt | importer.py:422-424 | call `Rows(i, n) + j` of the replay, for n registry entries, is entry j re-requested with suffix i |
| Resolver.RowsIsProduct | importer.py:422-424 | `Rows(i, n)` is i·n, so the replay is suffix-major: call i·n + j is entry j with suffix i |
| Resolver.Resolve | importer.py:366-370 | a wrong root gives exactly its ERROR and `StopParsing`; a unit without `model` raises; the only faults are `StopParsing`, `NoneValue` and `MissingKey` |
| Resolver.RunSteps | importer.py:409 | all clip messages are WARNINGs; the actions made are named after the requested files that exist |
| Resolver.LoadUnit | importer.py:446-451 | a wrong root yields only its ERROR; a well-rooted unit yields only WARNINGs; a success means the resolver raised nothing |
| LegacyResolver.LegacyQueuesNothing | blender_gladius/importer.py:290-302 | the older copy queues no Begin/End extras |
| LegacyResolver.LegacyActionsRegister | blender_gladius/importer.py:293-302 | the older action phase registers exactly the files of the clip calls it makes, in order |
| LegacyResolver.ActionPathsOnce | blender_gladius/importer.py:297-302 | the older action phase requests each path at most once, and never one already registered |
| LegacyResolver.ResolveAgree | blender_gladius/importer.py:260-306 | on a document with no move or levitate path both copies make the same calls and raise the same faults |
| LegacyResolver.IdleRequestedTwice | blender_gladius/importer.py:264-270 | two units with the same idle path request it twice, because the idle loop ignores the registry |

## Left out

- **Blender scene work** (`bpy`) is left out, because it is a foreign API:
  - creating the armature and edit bones;
  - `from_pydata`, custom normals and UV layers;
  - materials on polygons, modifiers and keyframe insertion;
  - mode switches and resetting the pose.
- The Blender calls appear in the model only as data. Examples are the list of
  new bones with their parent, and the surface handed to `from_pydata`.
- Blender renaming a new bone whose name already exists is not modelled.
  `created_bones` maps every name to itself.
- **`mathutils` math** is left out, because it is floating point:
  - the bone matrix composition with the `delta` rotation and the parent's
    matrix;
  - the bounding-box transform;
  - the `1 - v` flip of the texture coordinate.
  Positions, normals and UVs stay as the raw words read from the file.
- **The KD-tree** is left out, because it is a library. Its `find_range`
  results are given as `Tolerances.neighbours`.
- **The normal-distance test** is given as `Tolerances.normalClose`.
- **The weight test** is reduced to the flag
  `Tolerances.zeroBelowWeightThreshold`. `to_4d()` compares the four default
  zeros, so the test's outcome is the same for every pair.
- **`load_material`**: reading the material document, wiring the node graph
  and loading images are left out, because they are Blender glue. A material
  load is assumed to succeed. Its path appears in the mesh step.
- **Mesh loading inside `load_unit`** is recorded as a `LoadMesh` step. It is
  not chained to the `.msh` decoder, whose faults the model keeps separate.
- **ElementTree parsing** is left out. A document is an already-parsed tree.
- **Paths are plain strings.** The `pathlib` joins, `with_suffix` and
  `exists` become string concatenation and membership in the `Disk` map.
- **The armature's pose bones** are one fixed set of names per load. A bone
  created by an earlier mesh load is assumed to be in that set.
- **Partial state on a fault is not modelled.** On a fault, the model reports
  the messages and the fault. It drops whatever Blender objects the code had
  created before raising.
- **`import_unit`** is left out: its bulk deletion of Blender data and its
  printing are Blender side effects and I/O. Its message order is kept in
  `Resolver.LoadUnit`.
- **Both `__init__.py` files** are left out: they hold user-interface
  operators, preferences and argument persistence.
- **Case mapping** covers only ASCII. `lower()` and `upper()` of non-ASCII
  letters are not modelled, because the names in these files are ASCII.
- **The frame rate** is read and checked for size but not used, as in the
  code.
- **The Weld modifier** is not modelled. The older copy adds it to the object.
- Resolver.Unit: the contract states only the fault and the plan's growth;
  the exact steps are stated by `Resolver.UnitSteps`.
- Resolver.Resolve: the contract states the fault cases. The call sequence
  of a successful run is stated through its parts: `Resolver.Units`,
  `Resolver.Weapons`, `Resolver.Attribute` and `Resolver.ReplayAt`.
- Cursor.ReadStr: `BadUtf8` stands for Python's `UnicodeDecodeError`. The
  model checks validity but does not decode the bytes into characters.
  Names are kept as bytes.
- Skin.Sort: both members of a pair are floats, read with `'<kf'`. The order
  is the one Python's `<` gives on tuples of two floats only when neither
  member is NaN. The model orders a NaN by its bit pattern
  (`Float32.OrderKey`). Python's `<` finds NaN incomparable, so where `sorted`
  leaves a NaN pair depends on the comparisons timsort happens to make. The same holds for `Skin.RealPairs`, `MeshLoader.GroupWeights` and
  `VertexGroups.MembersMeaning`, which build on this sort.
- Clips.CountValue: `int()` also accepts non-ASCII decimal digits (Unicode
  category Nd, such as Arabic-Indic digits). `Text.ParseInt` accepts only
  ASCII digits and reports `BadInteger` for those. The whitespace `int()`
  strips is modelled in full: ASCII tab to carriage return and space, and
  the non-ASCII Unicode whitespace. The ASCII separators U+001C to U+001F
  are not stripped, although `str.isspace` holds for them.
- MeshLoader.Load: with merging off, a mesh whose positions are 4 floats
  wide loads in the model. What Blender's `from_pydata` does with 4D
  positions is not modelled, because it is a foreign API. With merging on,
  the KD-tree's `ValueError` for such a mesh is modelled.
