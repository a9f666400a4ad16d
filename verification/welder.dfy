/** The root copy's vertex welding (importer.py, `enable_vertex_automerge`):
    every corner of the triangle soup is either kept or mapped onto an
    earlier corner that lies close to it, has a close normal and the same
    bone indices.

    The distance questions are Blender's: the KD-tree range query and the
    normal distance are parameters.  The weight distance is not: both
    weight vectors are cut to their first four entries by `to_4d()`, which
    in this copy are always the four default zeros, so the test reduces to
    whether zero is below the weight threshold. */
module Welder {
  import opened Base
  import Float32
  import MeshDecoder

  datatype Tolerances = Tolerances(
    /** `find_range(v.position, position_threshold)`: the indices it
        reports for corner `i`, in the tree's order. */
    neighbours: nat -> seq<nat>,
    /** `(other_normal - vertex_normal).length < normal_threshold` for the
        normals of corners `other` and `vertex`. */
    normalClose: (nat, nat) -> bool,
    /** `0.0 < weight_threshold`. */
    zeroBelowWeightThreshold: bool)

  /** `tuple(a) == tuple(b)` on two bone index lists. */
  predicate IdsEqual(a: seq<nat>, b: seq<nat>) {
    |a| == |b| && forall k :: 0 <= k < |a| ==> Float32.Equal(a[k], b[k])
  }

  /** An entry of `seen_data`: the merged index it created and the corner
      whose normal, bone ids and weights it stored. */
  datatype Entry = Entry(merged: nat, founder: nat)

  datatype State = State(
    groups: map<nat, nat>,          // `vertex_group_by_postition`
    seen: map<nat, seq<Entry>>,     // `seen_data`
    idx2merged: seq<nat>,
    merged: seq<nat>)               // `merged_vert_ids`

  const Start := State(map[], map[], [], [])

  /** A reported neighbour that can lend its group to corner `self`: not
      the corner itself, and the founder of a group. */
  predicate Founder(candidate: nat, self: nat, groups: map<nat, nat>) {
    candidate != self && candidate in groups
  }

  /** Candidate `j` is the first founder in the list, and its group is `key`. */
  predicate FirstFounderAt(candidates: seq<nat>, self: nat, groups: map<nat, nat>, j: int, key: nat) {
    && 0 <= j < |candidates|
    && Founder(candidates[j], self, groups)
    && groups[candidates[j]] == key
    && forall k :: 0 <= k < j ==> !Founder(candidates[k], self, groups)
  }

  /** Lines 226-233: the group of the first reported neighbour, other than
      the corner itself, that founded a group. */
  function FirstGroup(candidates: seq<nat>, self: nat, groups: map<nat, nat>): (r: Option<nat>)
    ensures r.None? <==> forall j :: 0 <= j < |candidates| ==> candidates[j] == self || candidates[j] !in groups
    ensures r.Some? ==> exists j :: FirstFounderAt(candidates, self, groups, j, r.value)
  {
    if |candidates| == 0 then None
    else if Founder(candidates[0], self, groups) then
      assert FirstFounderAt(candidates, self, groups, 0, groups[candidates[0]]);
      Some(groups[candidates[0]])
    else
      var r := FirstGroup(candidates[1..], self, groups);
      assert forall j :: 1 <= j < |candidates| ==> candidates[j] == candidates[1..][j - 1];
      if r.Some? then FirstGroupShift(candidates, self, groups, r.value); r else r
  }

  /** A first founder after a non-founder head is the first founder of the
      whole list, one position later. */
  lemma {:induction false} FirstGroupShift(candidates: seq<nat>, self: nat, groups: map<nat, nat>, key: nat)
    requires |candidates| > 0 && !Founder(candidates[0], self, groups)
    requires exists j :: FirstFounderAt(candidates[1..], self, groups, j, key)
    ensures exists j :: FirstFounderAt(candidates, self, groups, j, key)
  {
    var j :| FirstFounderAt(candidates[1..], self, groups, j, key);
    assert candidates[j + 1] == candidates[1..][j];
    forall k | 0 < k < j + 1 ensures !Founder(candidates[k], self, groups) {
      assert candidates[k] == candidates[1..][k - 1];
    }
    assert FirstFounderAt(candidates, self, groups, j + 1, key);
  }

  /** Lines 240-244: corner `i` may reuse the entry of corner `other`. */
  predicate Mergeable(vs: seq<MeshDecoder.Vertex>, tol: Tolerances, other: nat, i: nat)
    requires other < |vs| && i < |vs|
  {
    && tol.normalClose(other, i)
    && IdsEqual(vs[i].boneIds, vs[other].boneIds)
    && tol.zeroBelowWeightThreshold
  }

  /** Entry `j` is the first entry corner `i` may reuse, and its merged
      index is `m`. */
  predicate FirstMatchAt(vs: seq<MeshDecoder.Vertex>, tol: Tolerances, entries: seq<Entry>, i: nat, j: int, m: nat)
    requires i < |vs|
    requires forall e :: e in entries ==> e.founder < |vs|
  {
    && 0 <= j < |entries|
    && entries[j].merged == m
    && Mergeable(vs, tol, entries[j].founder, i)
    && forall k :: 0 <= k < j ==> !Mergeable(vs, tol, entries[k].founder, i)
  }

  /** Lines 239-246: the merged index of the first entry that matches. */
  function FirstMatch(vs: seq<MeshDecoder.Vertex>, tol: Tolerances, entries: seq<Entry>, i: nat): (r: Option<nat>)
    requires i < |vs|
    requires forall e :: e in entries ==> e.founder < |vs|
    ensures r.None? <==> forall e :: e in entries ==> !Mergeable(vs, tol, e.founder, i)
    ensures r.Some? ==> exists e :: e in entries && e.merged == r.value && Mergeable(vs, tol, e.founder, i)
    ensures r.Some? ==> exists j :: FirstMatchAt(vs, tol, entries, i, j, r.value)
  {
    if |entries| == 0 then None
    else if Mergeable(vs, tol, entries[0].founder, i) then
      assert FirstMatchAt(vs, tol, entries, i, 0, entries[0].merged);
      Some(entries[0].merged)
    else
      assert forall e :: e in entries ==> e == entries[0] || e in entries[1..];
      var r := FirstMatch(vs, tol, entries[1..], i);
      if r.Some? then FirstMatchShift(vs, tol, entries, i, r.value); r else r
  }

  /** A first match after a head that does not match is the first match of
      the whole list, one position later. */
  lemma {:induction false} FirstMatchShift(vs: seq<MeshDecoder.Vertex>, tol: Tolerances, entries: seq<Entry>, i: nat, m: nat)
    requires i < |vs| && |entries| > 0
    requires forall e :: e in entries ==> e.founder < |vs|
    requires !Mergeable(vs, tol, entries[0].founder, i)
    requires forall e :: e in entries[1..] ==> e.founder < |vs|
    requires exists j :: FirstMatchAt(vs, tol, entries[1..], i, j, m)
    ensures exists j :: FirstMatchAt(vs, tol, entries, i, j, m)
  {
    var j :| FirstMatchAt(vs, tol, entries[1..], i, j, m);
    assert entries[j + 1] == entries[1..][j];
    forall k | 0 < k < j + 1 ensures !Mergeable(vs, tol, entries[k].founder, i) {
      assert entries[k] == entries[1..][k - 1];
    }
    assert FirstMatchAt(vs, tol, entries, i, j + 1, m);
  }

  /** A corner and the corner that represents it after welding are the same
      corner or passed the merge test. */
  predicate Compatible(vs: seq<MeshDecoder.Vertex>, tol: Tolerances, rep: nat, k: nat)
    requires rep < |vs| && k < |vs|
  {
    rep == k || Mergeable(vs, tol, rep, k)
  }

  /** The corner that corner `k` is welded onto. */
  function Rep(idx2merged: seq<nat>, merged: seq<nat>, k: nat): nat
    requires k < |idx2merged| && idx2merged[k] < |merged|
  {
    merged[idx2merged[k]]
  }

  /** What the loop keeps true after the first `n` corners. */
  ghost predicate Inv(vs: seq<MeshDecoder.Vertex>, tol: Tolerances, st: State, n: nat) {
    && Layout(vs, tol, st.idx2merged, st.merged, n)
    && GroupsFounded(st.groups, n)
    && (forall key :: key in st.seen ==> key in st.groups)
    && EntriesKept(st.seen, st.merged)
  }

  /** The part of the invariant about `idx2merged` and `merged_vert_ids`:
      every corner points at a kept corner no later than itself that it
      may be welded onto, and the kept corners are listed in order. */
  ghost predicate Layout(vs: seq<MeshDecoder.Vertex>, tol: Tolerances, idx2merged: seq<nat>, merged: seq<nat>, n: nat) {
    && n <= |vs|
    && |idx2merged| == n
    && (forall k :: 0 <= k < n ==> idx2merged[k] < |merged|)
    && (forall m :: 0 <= m < |merged| ==> merged[m] < n && idx2merged[merged[m]] == m)
    && (forall a, b :: 0 <= a < b < |merged| ==> merged[a] < merged[b])
    && (forall k :: 0 <= k < n ==> Rep(idx2merged, merged, k) <= k)
    && (forall k :: 0 <= k < n ==> Compatible(vs, tol, Rep(idx2merged, merged, k), k))
  }

  /** A corner that becomes a new merged vertex keeps the layout. */
  lemma {:induction false} LayoutAppend(vs: seq<MeshDecoder.Vertex>, tol: Tolerances, idx2merged: seq<nat>, merged: seq<nat>, i: nat)
    requires i < |vs| && Layout(vs, tol, idx2merged, merged, i)
    ensures Layout(vs, tol, idx2merged + [|merged|], merged + [i], i + 1)
  {
    var m := |merged|;
    var idx, mer := idx2merged + [m], merged + [i];
    assert forall k :: 0 <= k < i ==> idx[k] == idx2merged[k];
    assert forall j :: 0 <= j < m ==> mer[j] == merged[j];
    assert forall k :: 0 <= k < i ==> Rep(idx, mer, k) == Rep(idx2merged, merged, k);
    assert Rep(idx, mer, i) == i;
  }

  /** Every position group is keyed by, and mapped to, the corner that
      founded it. */
  ghost predicate GroupsFounded(groups: map<nat, nat>, n: nat) {
    forall key :: key in groups ==> groups[key] == key && key < n
  }

  /** Every stored entry names the merged vertex its founder became. */
  ghost predicate EntriesKept(seen: map<nat, seq<Entry>>, merged: seq<nat>) {
    forall key, e :: key in seen && e in seen[key] ==> e.merged < |merged| && merged[e.merged] == e.founder
  }

  /** The group corner `i` joins, and the group table after it joined. */
  function GroupOf(tol: Tolerances, st: State, i: nat): (nat, map<nat, nat>) {
    match FirstGroup(tol.neighbours(i), i, st.groups)
    case Some(key) => (key, st.groups)
    case None => (i, st.groups[i := i])
  }

  lemma {:induction false} GroupOfFounded(tol: Tolerances, st: State, i: nat)
    requires GroupsFounded(st.groups, i)
    ensures var (key, groups) := GroupOf(tol, st, i);
            key in groups && GroupsFounded(groups, i + 1) && st.groups.Keys <= groups.Keys
  {
  }

  function EntriesOf(st: State, key: nat): seq<Entry> {
    if key in st.seen then st.seen[key] else []
  }

  /** Corner `i` reuses the merged vertex of entry `e`. */
  lemma {:induction false} StepReuses(vs: seq<MeshDecoder.Vertex>, tol: Tolerances, st: State, i: nat,
                   key: nat, groups: map<nat, nat>, e: Entry)
    requires i < |vs| && Inv(vs, tol, st, i)
    requires key in groups && GroupsFounded(groups, i + 1) && st.groups.Keys <= groups.Keys
    requires e in EntriesOf(st, key) && Mergeable(vs, tol, e.founder, i)
    ensures Inv(vs, tol, State(groups, st.seen[key := EntriesOf(st, key)], st.idx2merged + [e.merged], st.merged), i + 1)
    ensures (st.idx2merged + [e.merged])[..i] == st.idx2merged
  {
    assert (st.idx2merged + [e.merged])[..i] == st.idx2merged;
    LayoutReuse(vs, tol, st.idx2merged, st.merged, i, e);
  }

  /** A corner that reuses the merged vertex of a matching entry keeps the
      layout. */
  lemma {:induction false} LayoutReuse(vs: seq<MeshDecoder.Vertex>, tol: Tolerances, idx2merged: seq<nat>, merged: seq<nat>,
                                       i: nat, e: Entry)
    requires i < |vs| && Layout(vs, tol, idx2merged, merged, i)
    requires e.merged < |merged| && merged[e.merged] == e.founder && e.founder < |vs| && Mergeable(vs, tol, e.founder, i)
    ensures Layout(vs, tol, idx2merged + [e.merged], merged, i + 1)
  {
    var idx := idx2merged + [e.merged];
    assert Rep(idx, merged, i) == e.founder;
    assert forall k :: 0 <= k < i ==> idx[k] == idx2merged[k];
    assert forall k :: 0 <= k < i ==> Rep(idx, merged, k) == Rep(idx2merged, merged, k);
  }

  /** Corner `i` becomes a new merged vertex and a new entry of its group. */
  lemma {:induction false} StepAppends(vs: seq<MeshDecoder.Vertex>, tol: Tolerances, st: State, i: nat,
                    key: nat, groups: map<nat, nat>)
    requires i < |vs| && Inv(vs, tol, st, i)
    requires key in groups && GroupsFounded(groups, i + 1) && st.groups.Keys <= groups.Keys
    ensures var m := |st.merged|;
            Inv(vs, tol, State(groups, st.seen[key := EntriesOf(st, key) + [Entry(m, i)]],
                               st.idx2merged + [m], st.merged + [i]), i + 1)
    ensures (st.idx2merged + [|st.merged|])[..i] == st.idx2merged
    ensures (st.merged + [i])[..|st.merged|] == st.merged
  {
    var m := |st.merged|;
    assert (st.idx2merged + [m])[..i] == st.idx2merged;
    assert (st.merged + [i])[..m] == st.merged;
    LayoutAppend(vs, tol, st.idx2merged, st.merged, i);
    EntriesKeptAppend(st.seen, st.merged, key, i);
  }

  /** A new entry for the new merged vertex keeps every entry accurate. */
  lemma {:induction false} EntriesKeptAppend(seen: map<nat, seq<Entry>>, merged: seq<nat>, key: nat, i: nat)
    requires EntriesKept(seen, merged)
    ensures EntriesKept(seen[key := (if key in seen then seen[key] else []) + [Entry(|merged|, i)]], merged + [i])
  {
    var m := |merged|;
    assert forall j :: 0 <= j < m ==> (merged + [i])[j] == merged[j];
  }

  /** Lines 225-251 for corner `i`. */
  function Step(vs: seq<MeshDecoder.Vertex>, tol: Tolerances, st: State, i: nat): (r: State)
    requires i < |vs| && Inv(vs, tol, st, i)
    ensures Inv(vs, tol, r, i + 1)
    ensures r.idx2merged[..i] == st.idx2merged
    ensures |r.merged| >= |st.merged| && r.merged[..|st.merged|] == st.merged
  {
    var (key, groups) := GroupOf(tol, st, i);
    GroupOfFounded(tol, st, i);
    var entries := EntriesOf(st, key);
    assert forall e :: e in entries ==> e.founder < i;
    match FirstMatch(vs, tol, entries, i)
    case Some(m) =>
      var e :| e in entries && e.merged == m && Mergeable(vs, tol, e.founder, i);
      StepReuses(vs, tol, st, i, key, groups, e);
      State(groups, st.seen[key := entries], st.idx2merged + [m], st.merged)
    case None =>
      StepAppends(vs, tol, st, i, key, groups);
      State(groups, st.seen[key := entries + [Entry(|st.merged|, i)]], st.idx2merged + [|st.merged|], st.merged + [i])
  }

  /** The loop over the first `n` corners. */
  function WeldPrefix(vs: seq<MeshDecoder.Vertex>, tol: Tolerances, n: nat): (st: State)
    requires n <= |vs|
    ensures Inv(vs, tol, st, n)
  {
    if n == 0 then Start else Step(vs, tol, WeldPrefix(vs, tol, n - 1), n - 1)
  }

  /** The welding of all corners: `idx2merged` maps every corner to its
      merged vertex, `merged_vert_ids` lists the corners kept. */
  datatype Welding = Welding(idx2merged: seq<nat>, merged: seq<nat>)

  function Weld(vs: seq<MeshDecoder.Vertex>, tol: Tolerances): (w: Welding)
    ensures |w.idx2merged| == |vs|
    ensures forall k :: 0 <= k < |vs| ==> w.idx2merged[k] < |w.merged|
    ensures forall m :: 0 <= m < |w.merged| ==> w.merged[m] < |vs| && w.idx2merged[w.merged[m]] == m
    ensures forall a, b :: 0 <= a < b < |w.merged| ==> w.merged[a] < w.merged[b]
    ensures forall k :: 0 <= k < |vs| ==> Rep(w.idx2merged, w.merged, k) <= k
    ensures forall k :: 0 <= k < |vs| ==> Compatible(vs, tol, Rep(w.idx2merged, w.merged, k), k)
  {
    var st := WeldPrefix(vs, tol, |vs|);
    Welding(st.idx2merged, st.merged)
  }

  /** Corners that have no other corner within reach are all kept. */
  lemma {:induction false} WeldIsolated(vs: seq<MeshDecoder.Vertex>, tol: Tolerances, n: nat)
    requires n <= |vs|
    requires forall i, j :: 0 <= i < n && 0 <= j < |tol.neighbours(i)| ==> tol.neighbours(i)[j] == i
    ensures WeldPrefix(vs, tol, n).merged == Range(n)
    ensures WeldPrefix(vs, tol, n).idx2merged == Range(n)
  {
    if n > 0 {
      WeldIsolated(vs, tol, n - 1);
      var prev := WeldPrefix(vs, tol, n - 1);
      assert FirstGroup(tol.neighbours(n - 1), n - 1, prev.groups).None?;
      StepFounds(vs, tol, prev, n - 1);
      assert Range(n) == Range(n - 1) + [n - 1];
    }
  }

  /** A corner that finds no group founds one and becomes a new vertex. */
  lemma {:induction false} StepFounds(vs: seq<MeshDecoder.Vertex>, tol: Tolerances, st: State, i: nat)
    requires i < |vs| && Inv(vs, tol, st, i)
    requires FirstGroup(tol.neighbours(i), i, st.groups).None?
    ensures Step(vs, tol, st, i)
            == State(st.groups[i := i], st.seen[i := [Entry(|st.merged|, i)]],
                     st.idx2merged + [|st.merged|], st.merged + [i])
  {
    assert GroupOf(tol, st, i) == (i, st.groups[i := i]);
    assert i !in st.seen;
    assert EntriesOf(st, i) + [Entry(|st.merged|, i)] == [Entry(|st.merged|, i)];
    assert FirstMatch(vs, tol, [], i).None?;
  }

  /** A corner that finds group `key` and a matching entry there becomes
      that entry's vertex. */
  lemma {:induction false} StepJoins(vs: seq<MeshDecoder.Vertex>, tol: Tolerances, st: State, i: nat, key: nat, m: nat)
    requires i < |vs| && Inv(vs, tol, st, i)
    requires FirstGroup(tol.neighbours(i), i, st.groups) == Some(key)
    requires FirstMatch(vs, tol, EntriesOf(st, key), i) == Some(m)
    ensures Step(vs, tol, st, i)
            == State(st.groups, st.seen[key := EntriesOf(st, key)], st.idx2merged + [m], st.merged)
  {
  }

  /** `[0, 1, ..., n - 1]`. */
  function Range(n: nat): (r: seq<nat>)
    ensures |r| == n && forall i :: 0 <= i < n ==> r[i] == i
  {
    if n == 0 then [] else Range(n - 1) + [n - 1]
  }

  /** The weights take no part in welding: corners that differ only in
      their weights weld the same way. */
  lemma {:induction false} WeightsIgnored(vs: seq<MeshDecoder.Vertex>, ws: seq<MeshDecoder.Vertex>, tol: Tolerances, n: nat)
    requires |vs| == |ws| && n <= |vs|
    requires forall k :: 0 <= k < |vs| ==> vs[k].boneIds == ws[k].boneIds
    ensures WeldPrefix(vs, tol, n) == WeldPrefix(ws, tol, n)
  {
    if n > 0 {
      WeightsIgnored(vs, ws, tol, n - 1);
      var st := WeldPrefix(vs, tol, n - 1);
      FirstMatchSame(vs, ws, tol, n - 1, st);
    }
  }

  lemma {:induction false} FirstMatchSame(vs: seq<MeshDecoder.Vertex>, ws: seq<MeshDecoder.Vertex>, tol: Tolerances, i: nat, st: State)
    requires |vs| == |ws| && i < |vs|
    requires forall k :: 0 <= k < |vs| ==> vs[k].boneIds == ws[k].boneIds
    requires Inv(vs, tol, st, i) && Inv(ws, tol, st, i)
    ensures Step(vs, tol, st, i) == Step(ws, tol, st, i)
  {
    var found := FirstGroup(tol.neighbours(i), i, st.groups);
    var key := if found.Some? then found.value else i;
    var entries := if key in st.seen then st.seen[key] else [];
    FirstMatchOfSameIds(vs, ws, tol, entries, i);
  }

  lemma {:induction false} FirstMatchOfSameIds(vs: seq<MeshDecoder.Vertex>, ws: seq<MeshDecoder.Vertex>, tol: Tolerances,
                                               entries: seq<Entry>, i: nat)
    requires |vs| == |ws| && i < |vs|
    requires forall k :: 0 <= k < |vs| ==> vs[k].boneIds == ws[k].boneIds
    requires forall e :: e in entries ==> e.founder < |vs|
    ensures FirstMatch(vs, tol, entries, i) == FirstMatch(ws, tol, entries, i)
  {
    if |entries| > 0 {
      assert entries[0] in entries;
      MergeableOfSameIds(vs, ws, tol, entries[0].founder, i);
      assert forall e :: e in entries[1..] ==> e in entries;
      FirstMatchOfSameIds(vs, ws, tol, entries[1..], i);
    }
  }

  lemma {:induction false} MergeableOfSameIds(vs: seq<MeshDecoder.Vertex>, ws: seq<MeshDecoder.Vertex>, tol: Tolerances,
                                              j: nat, i: nat)
    requires |vs| == |ws| && i < |vs| && j < |vs|
    requires vs[i].boneIds == ws[i].boneIds && vs[j].boneIds == ws[j].boneIds
    ensures Mergeable(vs, tol, j, i) == Mergeable(ws, tol, j, i)
  {
  }

  lemma {:induction false} AppendZero(a: seq<nat>, b: seq<nat>)
    requires a == [0] && b == a + [0]
    ensures b == [0, 0]
  {
  }

  lemma {:induction false} IncreasingAtLeastIndex(s: seq<nat>, n: nat)
    requires n <= |s|
    requires forall a, b :: 0 <= a < b < |s| ==> s[a] < s[b]
    ensures forall m :: 0 <= m < n ==> m <= s[m]
  {
    if n > 0 {
      IncreasingAtLeastIndex(s, n - 1);
      if n >= 2 {
        assert s[n - 2] < s[n - 1];
      }
    }
  }

  /** The first corner always founds its own group and vertex. */
  lemma {:induction false} WeldFirst(vs: seq<MeshDecoder.Vertex>, tol: Tolerances)
    requires |vs| >= 1
    ensures WeldPrefix(vs, tol, 1) == State(map[0 := 0], map[0 := [Entry(0, 0)]], [0], [0])
  {
    assert WeldPrefix(vs, tol, 0) == Start;
    assert FirstGroup(tol.neighbours(0), 0, map[]) == None;
    StepFounds(vs, tol, Start, 0);
  }

  /** Two coincident corners with the same bone indices and close normals
      become one vertex. */
  lemma {:induction false} WeldTwins(vs: seq<MeshDecoder.Vertex>, tol: Tolerances)
    requires |vs| == 2
    requires tol.neighbours(0) == [0, 1] && tol.neighbours(1) == [1, 0]
    requires Mergeable(vs, tol, 0, 1)
    ensures Weld(vs, tol) == Welding([0, 0], [0])
  {
    WeldFirst(vs, tol);
    var s1 := WeldPrefix(vs, tol, 1);
    SecondTwinJoins(vs, tol, s1);
    assert WeldPrefix(vs, tol, 2) == Step(vs, tol, s1, 1);
  }

  /** The second twin finds the first one's group and entry. */
  lemma {:induction false} SecondTwinJoins(vs: seq<MeshDecoder.Vertex>, tol: Tolerances, s1: State)
    requires |vs| == 2
    requires tol.neighbours(1) == [1, 0]
    requires Mergeable(vs, tol, 0, 1)
    requires s1 == State(map[0 := 0], map[0 := [Entry(0, 0)]], [0], [0]) && Inv(vs, tol, s1, 1)
    ensures Step(vs, tol, s1, 1).idx2merged == [0, 0] && Step(vs, tol, s1, 1).merged == [0]
  {
    assert EntriesOf(s1, 0) == [Entry(0, 0)];
    assert [1, 0][1..] == [0];
    assert FirstGroup([1, 0], 1, s1.groups) == Some(0);
    assert FirstMatch(vs, tol, [Entry(0, 0)], 1) == Some(0);
    StepJoins(vs, tol, s1, 1, 0, 0);
    AppendZero(s1.idx2merged, Step(vs, tol, s1, 1).idx2merged);
  }

  /** Two corners with different bone index lists stay apart, however close
      they are. */
  lemma {:induction false} WeldKeepsDifferentIds(vs: seq<MeshDecoder.Vertex>, tol: Tolerances)
    requires |vs| == 2
    requires !IdsEqual(vs[1].boneIds, vs[0].boneIds)
    ensures Weld(vs, tol).merged == [0, 1]
  {
    var w := Weld(vs, tol);
    assert Rep(w.idx2merged, w.merged, 1) == 1;
    assert Rep(w.idx2merged, w.merged, 0) == 0;
    IncreasingAtLeastIndex(w.merged, |w.merged|);

  }
}
