/** The face list after welding (importer.py, the loop over `old_face_list`)
    and the per-corner normals Blender receives.

    Every triangle is renamed through `idx2merged`.  A triangle whose
    corners collapsed onto fewer than three vertices is dropped, and so is
    a triangle over the same three vertices as a triangle kept earlier,
    whatever their order.  Each kept triangle brings along the texture
    coordinates and normals of its original corners. */
module Faces {
  import opened MeshCommon
  import MeshDecoder

  /** Every face's corners are below `bound`. */
  predicate Within(faces: seq<Face>, bound: nat) {
    forall j :: 0 <= j < |faces| ==> faces[j].a < bound && faces[j].b < bound && faces[j].c < bound
  }

  /** `[f(i) for i in face]`. */
  function MapCorners<T>(face: Face, table: seq<T>): (r: Triple<T>)
    requires face.a < |table| && face.b < |table| && face.c < |table|
    ensures r == Triple(table[face.a], table[face.b], table[face.c])
  {
    Triple(table[face.a], table[face.b], table[face.c])
  }

  /** `new_face[0] != new_face[1] != new_face[2] != new_face[0]`: the
      chained comparison holds exactly when the three corners differ. */
  predicate Proper(face: Face) {
    face.a != face.b && face.b != face.c && face.c != face.a
  }

  function Corners(face: Face): multiset<nat> {
    multiset{face.a, face.b, face.c}
  }

  /** `tuple(sorted(face))`. */
  function SortedKey(face: Face): (k: Face)
    ensures k.a <= k.b <= k.c
  {
    var Triple(a, b, c) := face;
    if a <= b then
      if b <= c then Triple(a, b, c) else if a <= c then Triple(a, c, b) else Triple(c, a, b)
    else
      if a <= c then Triple(b, a, c) else if b <= c then Triple(b, c, a) else Triple(c, b, a)
  }

  /** Two triangles get the same key exactly when they use the same
      vertices equally often. */
  lemma {:induction false} SortedKeyIff(f: Face, g: Face)
    ensures SortedKey(f) == SortedKey(g) <==> Corners(f) == Corners(g)
  {
    SortedKeyCorners(f);
    SortedKeyCorners(g);
    if Corners(f) == Corners(g) {
      SortedUnique(SortedKey(f), SortedKey(g));
    }
  }

  /** Sorting permutes the corners. */
  lemma {:induction false} SortedKeyCorners(face: Face)
    ensures Corners(SortedKey(face)) == Corners(face)
  {
  }

  /** A sorted triple is determined by its multiset. */
  lemma {:induction false} SortedUnique(k: Face, l: Face)
    requires k.a <= k.b <= k.c && l.a <= l.b <= l.c
    requires Corners(k) == Corners(l)
    ensures k == l
  {
    SmallestCorner(k, l.a);
    SmallestCorner(l, k.a);
    CornersSplit(k);
    CornersSplit(l);
    CancelOne(k.a, multiset{k.b, k.c}, multiset{l.b, l.c});
    SortedPairUnique(k.b, k.c, l.b, l.c);
  }

  /** Every corner of a sorted triple is at least its first. */
  lemma {:induction false} SmallestCorner(k: Face, x: nat)
    requires k.a <= k.b <= k.c && x in Corners(k)
    ensures k.a <= x
  {
  }

  lemma {:induction false} CornersSplit(k: Face)
    ensures Corners(k) == multiset{k.a} + multiset{k.b, k.c}
  {
  }

  lemma {:induction false} CancelOne(x: nat, m: multiset<nat>, n: multiset<nat>)
    requires multiset{x} + m == multiset{x} + n
    ensures m == n
  {
    assert m == (multiset{x} + m) - multiset{x};
    assert n == (multiset{x} + n) - multiset{x};
  }

  /** A sorted pair is determined by its multiset. */
  lemma {:induction false} SortedPairUnique(b: nat, c: nat, d: nat, e: nat)
    requires b <= c && d <= e && multiset{b, c} == multiset{d, e}
    ensures b == d && c == e
  {
    assert d in multiset{b, c} && b in multiset{d, e};
    assert b == d;
    assert multiset{b, c} == multiset{b} + multiset{c};
    assert multiset{d, e} == multiset{b} + multiset{e};
    CancelOne(b, multiset{c}, multiset{e});
    assert c in multiset{e};
  }

  /** Inputs shared by every step: the original faces, the texture
      coordinate and normal of every original vertex, and the welding. */
  datatype Input = Input(faces: seq<Face>, uvs: seq<Uv>, normals: seq<seq<nat>>, idx2merged: seq<nat>)

  predicate WellFormed(inp: Input) {
    && |inp.uvs| == |inp.normals| == |inp.idx2merged|
    && Within(inp.faces, |inp.idx2merged|)
  }

  /** Original triangle `j` renamed through the welding: `new_face`. */
  function Renamed(inp: Input, j: nat): Face
    requires WellFormed(inp) && j < |inp.faces|
  {
    MapCorners(inp.faces[j], inp.idx2merged)
  }

  /** `[vertex_list[i].normal for i in vertex_list]`. */
  function NormalTable(vertices: seq<MeshDecoder.Vertex>): (ns: seq<seq<nat>>)
    ensures |ns| == |vertices| && forall i :: 0 <= i < |vertices| ==> ns[i] == vertices[i].normal
  {
    if |vertices| == 0 then [] else [vertices[0].normal] + NormalTable(vertices[1..])
  }

  /** The rebuilt mesh: kept triangles, the texture coordinates and normals
      of each kept triangle's corners, the original triangle each kept one
      came from, and the keys seen so far (`seen_faces`). */
  datatype Rebuilt = Rebuilt(faces: seq<Face>, uvs: seq<Triple<Uv>>, normals: seq<Triple<seq<nat>>>,
                             sources: seq<nat>, seen: set<Face>)

  predicate Aligned(out: Rebuilt) {
    |out.faces| == |out.sources| == |out.uvs| == |out.normals|
  }

  /** Kept triangle `k` is its source triangle renamed, has three distinct
      corners, and carries its source's corner data. */
  ghost predicate Kept(inp: Input, out: Rebuilt, k: nat)
    requires WellFormed(inp) && Aligned(out) && k < |out.faces|
  {
    var j := out.sources[k];
    && j < |inp.faces|
    && out.faces[k] == Renamed(inp, j)
    && Proper(out.faces[k])
    && out.uvs[k] == MapCorners(inp.faces[j], inp.uvs)
    && out.normals[k] == MapCorners(inp.faces[j], inp.normals)
  }

  ghost predicate AllKept(inp: Input, out: Rebuilt)
    requires WellFormed(inp) && Aligned(out)
  {
    forall k :: 0 <= k < |out.faces| ==> Kept(inp, out, k)
  }

  /** Sources are increasing and below `n`. */
  ghost predicate Ordered(out: Rebuilt, n: nat) {
    && (forall a, b :: 0 <= a < b < |out.sources| ==> out.sources[a] < out.sources[b])
    && (forall k :: 0 <= k < |out.sources| ==> out.sources[k] < n)
  }

  /** The key set of a list of faces. */
  function KeySet(faces: seq<Face>): set<Face> {
    set k | 0 <= k < |faces| :: SortedKey(faces[k])
  }

  /** No two kept triangles share their vertices. */
  ghost predicate KeysDistinct(faces: seq<Face>) {
    forall a, b :: 0 <= a < b < |faces| ==> SortedKey(faces[a]) != SortedKey(faces[b])
  }

  /** Every proper triangle among the first `n` has its key seen. */
  ghost predicate Covered(inp: Input, seen: set<Face>, n: nat)
    requires WellFormed(inp) && n <= |inp.faces|
  {
    forall j :: 0 <= j < n && Proper(Renamed(inp, j)) ==> SortedKey(Renamed(inp, j)) in seen
  }

  /** No proper triangle before a kept one's source has its key: the kept
      triangle is the first over its vertices. */
  ghost predicate First(inp: Input, out: Rebuilt)
    requires WellFormed(inp) && Aligned(out)
  {
    forall k, j :: 0 <= k < |out.faces| && 0 <= j < out.sources[k] && j < |inp.faces| && Proper(Renamed(inp, j)) ==>
      SortedKey(Renamed(inp, j)) != SortedKey(out.faces[k])
  }

  /** What holds after the first `n` original triangles. */
  ghost predicate Inv(inp: Input, out: Rebuilt, n: nat)
    requires WellFormed(inp) && n <= |inp.faces|
  {
    && Aligned(out)
    && Ordered(out, n)
    && AllKept(inp, out)
    && KeysDistinct(out.faces)
    && out.seen == KeySet(out.faces)
    && Covered(inp, out.seen, n)
    && First(inp, out)
  }

  /** Lines 265-268: record the key, the face and its corners' data. */
  function Keep(inp: Input, out: Rebuilt, n: nat): Rebuilt
    requires WellFormed(inp) && n < |inp.faces|
  {
    Rebuilt(out.faces + [Renamed(inp, n)],
            out.uvs + [MapCorners(inp.faces[n], inp.uvs)],
            out.normals + [MapCorners(inp.faces[n], inp.normals)],
            out.sources + [n],
            out.seen + {SortedKey(Renamed(inp, n))})
  }

  lemma {:induction false} KeySetAppend(faces: seq<Face>, f: Face)
    ensures KeySet(faces + [f]) == KeySet(faces) + {SortedKey(f)}
  {
    var g := faces + [f];
    forall x | x in KeySet(g) ensures x in KeySet(faces) + {SortedKey(f)} {
      var k :| 0 <= k < |g| && x == SortedKey(g[k]);
      if k < |faces| {
        assert g[k] == faces[k];
      }
    }
    forall x | x in KeySet(faces) ensures x in KeySet(g) {
      var k :| 0 <= k < |faces| && x == SortedKey(faces[k]);
      assert g[k] == faces[k];
    }
    assert g[|faces|] == f;
  }

  lemma {:induction false} KeepKept(inp: Input, out: Rebuilt, n: nat)
    requires WellFormed(inp) && n < |inp.faces| && Aligned(out) && AllKept(inp, out)
    requires Proper(Renamed(inp, n))
    ensures Aligned(Keep(inp, out, n)) && AllKept(inp, Keep(inp, out, n))
  {
    var r := Keep(inp, out, n);
    forall k | 0 <= k < |r.faces| ensures Kept(inp, r, k) {
      if k < |out.faces| {
        assert Kept(inp, out, k);
      }
    }
  }

  lemma {:induction false} KeepDistinct(faces: seq<Face>, f: Face)
    requires KeysDistinct(faces) && SortedKey(f) !in KeySet(faces)
    ensures KeysDistinct(faces + [f])
  {
    var g := faces + [f];
    forall a, b | 0 <= a < b < |g| ensures SortedKey(g[a]) != SortedKey(g[b]) {
      assert g[a] == faces[a];
      if b == |faces| {
        assert SortedKey(faces[a]) in KeySet(faces);
      }
    }
  }

  lemma {:induction false} KeepOrdered(out: Rebuilt, n: nat)
    requires Ordered(out, n)
    ensures Ordered(out.(sources := out.sources + [n]), n + 1)
  {
  }

  /** Keeping triangle `n` keeps the invariant. */
  lemma {:induction false} KeepAppends(inp: Input, out: Rebuilt, n: nat)
    requires WellFormed(inp) && n < |inp.faces| && Inv(inp, out, n)
    requires Proper(Renamed(inp, n)) && SortedKey(Renamed(inp, n)) !in out.seen
    ensures Inv(inp, Keep(inp, out, n), n + 1)
  {
    var r := Keep(inp, out, n);
    KeepKept(inp, out, n);
    KeepDistinct(out.faces, Renamed(inp, n));
    KeepOrdered(out, n);
    KeySetAppend(out.faces, Renamed(inp, n));
    assert Covered(inp, r.seen, n + 1);
    KeepFirst(inp, out, n);
  }

  lemma {:induction false} KeepFirst(inp: Input, out: Rebuilt, n: nat)
    requires WellFormed(inp) && n < |inp.faces| && Inv(inp, out, n)
    requires SortedKey(Renamed(inp, n)) !in out.seen
    ensures Aligned(Keep(inp, out, n)) && First(inp, Keep(inp, out, n))
  {
    var r := Keep(inp, out, n);
    forall k, j | 0 <= k < |r.faces| && 0 <= j < r.sources[k] && j < |inp.faces| && Proper(Renamed(inp, j))
      ensures SortedKey(Renamed(inp, j)) != SortedKey(r.faces[k])
    {
      if k < |out.faces| {
        assert r.sources[k] == out.sources[k] && r.faces[k] == out.faces[k];
      } else {
        assert r.sources[k] == n && r.faces[k] == Renamed(inp, n);
        assert SortedKey(Renamed(inp, j)) in out.seen;
      }
    }
  }

  /** Skipping triangle `n` keeps the invariant. */
  lemma {:induction false} SkipKeeps(inp: Input, out: Rebuilt, n: nat)
    requires WellFormed(inp) && n < |inp.faces| && Inv(inp, out, n)
    requires !Proper(Renamed(inp, n)) || SortedKey(Renamed(inp, n)) in out.seen
    ensures Inv(inp, out, n + 1)
  {
    assert Covered(inp, out.seen, n + 1);
  }

  /** Lines 258-268 for the first `n` original triangles. */
  function RebuildPrefix(inp: Input, n: nat): (out: Rebuilt)
    requires WellFormed(inp) && n <= |inp.faces|
    ensures Inv(inp, out, n)
  {
    if n == 0 then Rebuilt([], [], [], [], {})
    else
      var out := RebuildPrefix(inp, n - 1);
      var face := Renamed(inp, n - 1);
      if !Proper(face) || SortedKey(face) in out.seen then
        SkipKeeps(inp, out, n - 1);
        out
      else
        KeepAppends(inp, out, n - 1);
        Keep(inp, out, n - 1)
  }

  /** The loop over all triangles.  Every kept triangle is a renamed
      original with three distinct corners and that original's corner data,
      in the original order; no two kept triangles share their vertices;
      every proper renamed triangle shares its vertices with a kept one, and
      the kept one is the first such. */
  function Rebuild(inp: Input): (out: Rebuilt)
    requires WellFormed(inp)
    ensures Aligned(out)
    ensures forall k :: 0 <= k < |out.faces| ==> Kept(inp, out, k)
    ensures forall a, b :: 0 <= a < b < |out.sources| ==> out.sources[a] < out.sources[b]
    ensures forall a, b :: 0 <= a < b < |out.faces| ==> SortedKey(out.faces[a]) != SortedKey(out.faces[b])
    ensures forall j :: 0 <= j < |inp.faces| && Proper(Renamed(inp, j)) ==>
      exists k :: 0 <= k < |out.faces| && SortedKey(out.faces[k]) == SortedKey(Renamed(inp, j))
    ensures First(inp, out)
  {
    var out := RebuildPrefix(inp, |inp.faces|);
    assert AllKept(inp, out) && Ordered(out, |inp.faces|) && KeysDistinct(out.faces);
    assert forall j :: 0 <= j < |inp.faces| && Proper(Renamed(inp, j)) ==> SortedKey(Renamed(inp, j)) in KeySet(out.faces);
    out
  }

  /** `[i for p in faces for i in p]`: per-corner data flattened. */
  function Flatten<T>(ts: seq<Triple<T>>): (r: seq<T>)
    ensures |r| == 3 * |ts|
  {
    if |ts| == 0 then []
    else
      var init := Flatten(ts[..|ts| - 1]);
      var t := ts[|ts| - 1];
      init + [t.a, t.b, t.c]
  }

  /** `[table[v] for v in p]` for every triangle `p`. */
  function Gather<T>(faces: seq<Face>, table: seq<T>): (r: seq<Triple<T>>)
    requires Within(faces, |table|)
    ensures |r| == |faces|
    ensures forall p :: 0 <= p < |faces| ==> r[p] == MapCorners(faces[p], table)
  {
    if |faces| == 0 then []
    else Gather(faces[..|faces| - 1], table) + [MapCorners(faces[|faces| - 1], table)]
  }

  /** `[vertex_list[v].normal for p in face_list for v in p]`: the normals
      Blender receives when nothing is welded. */
  function CornerNormalsOf(vertices: seq<MeshDecoder.Vertex>, faces: seq<Face>): (normals: seq<seq<nat>>)
    requires Within(faces, |vertices|)
    ensures |normals| == 3 * |faces|
  {
    Flatten(Gather(faces, NormalTable(vertices)))
  }

  /** On the triangle soup every corner is its own vertex, so the normals
      come out in vertex order. */
  lemma {:induction false} SoupNormals(vertices: seq<MeshDecoder.Vertex>, polygons: nat)
    requires |vertices| == 3 * polygons
    ensures Within(SoupFaces(polygons), |vertices|)
    ensures CornerNormalsOf(vertices, SoupFaces(polygons)) == NormalTable(vertices)
  {
    var table := NormalTable(vertices);
    SoupGather(table, polygons);
    assert table[..3 * polygons] == table;
  }

  /** The soup's corners are below three times its triangle count. */
  lemma {:induction false} SoupWithin(polygons: nat, bound: nat)
    requires 3 * polygons <= bound
    ensures Within(SoupFaces(polygons), bound)
  {
    var faces := SoupFaces(polygons);
    forall q | 0 <= q < polygons ensures SoupFace(q).c < bound {
    }
  }

  /** Corner `c` of triangle `p` lands at position `3p + c`. */
  lemma {:induction false} FlattenAt<T>(ts: seq<Triple<T>>, p: nat)
    requires p < |ts|
    ensures Flatten(ts)[3 * p] == ts[p].a && Flatten(ts)[3 * p + 1] == ts[p].b && Flatten(ts)[3 * p + 2] == ts[p].c
  {
    var init := ts[..|ts| - 1];
    assert ts == init + [ts[|ts| - 1]];
    FlattenAppend(init, ts[|ts| - 1]);
    if p < |init| {
      FlattenAt(init, p);
    }
  }

  lemma {:induction false} FlattenAppend<T>(ts: seq<Triple<T>>, t: Triple<T>)
    ensures Flatten(ts + [t]) == Flatten(ts) + [t.a, t.b, t.c]
  {
    assert (ts + [t])[..|ts|] == ts;
  }

  lemma {:induction false} GatherAppend<T>(faces: seq<Face>, f: Face, table: seq<T>)
    requires Within(faces, |table|) && f.a < |table| && f.b < |table| && f.c < |table|
    ensures Within(faces + [f], |table|)
    ensures Gather(faces + [f], table) == Gather(faces, table) + [MapCorners(f, table)]
  {
    var g := faces + [f];
    assert g[..|faces|] == faces;
    assert forall j :: 0 <= j < |faces| ==> faces[j] == g[j];
    assert Within(g, |table|);
  }

  lemma {:induction false} SliceStep<T>(s: seq<T>, b: nat)
    requires b + 3 <= |s|
    ensures s[..b + 3] == s[..b] + [s[b], s[b + 1], s[b + 2]]
  {
  }

  /** Gathering the soup's corners from a table reads the table in order. */
  lemma {:induction false} SoupGather<T>(table: seq<T>, polygons: nat)
    requires 3 * polygons <= |table|
    ensures Within(SoupFaces(polygons), |table|)
    ensures Flatten(Gather(SoupFaces(polygons), table)) == table[..3 * polygons]
  {
    SoupWithin(polygons, |table|);
    if polygons > 0 {
      var p := polygons - 1;
      var b := 3 * p;
      SoupGather(table, p);
      var t := SoupFace(p);
      var init := Gather(SoupFaces(p), table);
      var last := MapCorners(t, table);
      assert SoupFaces(polygons) == SoupFaces(p) + [t];
      GatherAppend(SoupFaces(p), t, table);
      assert Gather(SoupFaces(polygons), table) == init + [last];
      FlattenAppend(init, last);
      assert [last.a, last.b, last.c] == [table[b], table[b + 1], table[b + 2]];
      assert 3 * polygons == b + 3;
      SliceStep(table, b);
    }
  }
}
