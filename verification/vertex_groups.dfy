/** Vertex groups: which bone every vertex is skinned to, with what weight.

    Both copies of `load_msh_file` look a bone up as `bone_names[int(bone_idx)]`,
    collect `(vertex index, weight)` pairs per bone name with
    `setdefault(name, []).append(...)`, and hand each list to Blender with
    `vertex_group.add([vertex], weight, 'REPLACE')`, so a vertex listed twice
    under one bone keeps its last weight. */
module VertexGroups {
  import opened Base
  import opened Bytes
  import Float32
  import OrderedMap
  import Skin

  /** `s[i]` in Python: a negative index counts from the end. */
  function PyIndex<T>(s: seq<T>, i: int): (r: Result<T>)
    ensures r.Ok? <==> -|s| <= i < |s|
    ensures r.Err? ==> r.fault == IndexOutOfRange
    ensures r.Ok? ==> r.value in s
  {
    if 0 <= i < |s| then Ok(s[i])
    else if -|s| <= i < 0 then Ok(s[|s| + i])
    else Err(IndexOutOfRange)
  }

  /** Index `i - len(s)` names the same item as `i`. */
  lemma {:induction false} PyIndexFromEnd<T>(s: seq<T>, i: nat)
    requires i < |s|
    ensures PyIndex(s, i - |s|) == PyIndex(s, i) == Ok(s[i])
  {
  }

  /** `bone_names[int(bone_idx)]`: `int()` of a NaN or an infinity fails
      first, then the index must be in range. */
  function BoneName(boneNames: seq<Bytes>, id: Float32.Word): (r: Result<Bytes>)
    ensures Float32.Truncate(id).Err? ==> r == Err(Float32.Truncate(id).fault)
    ensures Float32.Truncate(id).Ok? ==> r == PyIndex(boneNames, Float32.Truncate(id).value)
    ensures r.Ok? ==> r.value in boneNames
  {
    var i :- Float32.Truncate(id);
    PyIndex(boneNames, i)
  }

  /** The zero index (either sign) names the first bone, and fails on an
      empty table. */
  lemma {:induction false} BoneNameOfZero(boneNames: seq<Bytes>, id: Float32.Word)
    requires Float32.IsZero(id)
    ensures |boneNames| == 0 ==> BoneName(boneNames, id) == Err(IndexOutOfRange)
    ensures |boneNames| > 0 ==> BoneName(boneNames, id) == Ok(boneNames[0])
  {
  }

  /** A bone index written as the float of `i` names bone `i`, and one past
      the table fails. */
  lemma {:induction false} BoneNameOfIndex(boneNames: seq<Bytes>, i: nat)
    requires i < 0x100_0000
    ensures i < |boneNames| ==> BoneName(boneNames, Float32.FromNat(i)) == Ok(boneNames[i])
    ensures i >= |boneNames| ==> BoneName(boneNames, Float32.FromNat(i)) == Err(IndexOutOfRange)
  {
    Float32.TruncateOfNat(i);
  }

  /** One `(vertex_idx, bone_weight)` appended under a bone name. */
  datatype Assignment = Assignment(bone: Bytes, vertex: nat, weight: nat)

  /** The pairs of one vertex: every `(index, weight)` of the zip is looked
      up in order, and the pair is assigned when `positiveOnly` is off or its
      weight is above zero.  The lookup happens before the weight test, so a
      bad index fails even with a zero weight. */
  function AssignVertex(boneNames: seq<Bytes>, vertex: nat, pairs: seq<Skin.Pair>, positiveOnly: bool)
    : (r: Result<seq<Assignment>>)
    ensures r.Ok? <==> forall j :: 0 <= j < |pairs| ==> BoneName(boneNames, pairs[j].0).Ok?
    ensures r.Err? ==> exists j :: 0 <= j < |pairs| && BoneName(boneNames, pairs[j].0) == Err(r.fault)
    ensures r.Ok? ==> |r.value| <= |pairs|
    ensures r.Ok? && !positiveOnly ==> |r.value| == |pairs| && forall j :: 0 <= j < |pairs| ==>
              r.value[j] == Assignment(BoneName(boneNames, pairs[j].0).value, vertex, pairs[j].1)
    ensures r.Ok? ==> forall a :: a in r.value ==>
              a.vertex == vertex && a.bone in boneNames && (positiveOnly ==> Float32.IsPositive(a.weight))
  {
    if |pairs| == 0 then Ok([])
    else
      var name :- BoneName(boneNames, pairs[0].0);
      var head := if !positiveOnly || Float32.IsPositive(pairs[0].1) then [Assignment(name, vertex, pairs[0].1)] else [];
      var tail :- AssignVertex(boneNames, vertex, pairs[1..], positiveOnly);
      assert forall j :: 1 <= j < |pairs| ==> pairs[j] == pairs[1..][j - 1];
      Ok(head + tail)
  }

  /** Exactly the pairs with a positive weight are assigned, in order. */
  lemma {:induction false} AssignVertexPositive(boneNames: seq<Bytes>, vertex: nat, pairs: seq<Skin.Pair>)
    requires AssignVertex(boneNames, vertex, pairs, true).Ok?
    ensures AssignVertex(boneNames, vertex, pairs, true).value
            == Positive(AssignVertex(boneNames, vertex, pairs, false).value)
  {
    if |pairs| > 0 {
      AssignVertexPositive(boneNames, vertex, pairs[1..]);
    }
  }

  /** The assignments whose weight is above zero. */
  function Positive(xs: seq<Assignment>): (r: seq<Assignment>)
    ensures forall a :: a in r <==> a in xs && Float32.IsPositive(a.weight)
  {
    if |xs| == 0 then []
    else (if Float32.IsPositive(xs[0].weight) then [xs[0]] else []) + Positive(xs[1..])
  }

  /** The bone names of a list of assignments, in order. */
  function Bones(xs: seq<Assignment>): (bs: seq<Bytes>)
    ensures |bs| == |xs| && forall i :: 0 <= i < |xs| ==> bs[i] == xs[i].bone
  {
    if |xs| == 0 then [] else Bones(xs[..|xs| - 1]) + [xs[|xs| - 1].bone]
  }

  /** Reference meaning of the list kept under `bone`: its assignments'
      `(vertex, weight)`, in order. */
  function WeightsFor(xs: seq<Assignment>, bone: Bytes): seq<(nat, nat)> {
    if |xs| == 0 then []
    else
      var last := xs[|xs| - 1];
      WeightsFor(xs[..|xs| - 1], bone) + (if last.bone == bone then [(last.vertex, last.weight)] else [])
  }

  /** Every weight kept under `bone` comes from an assignment to `bone`. */
  lemma {:induction false} WeightsForFrom(xs: seq<Assignment>, bone: Bytes)
    ensures forall p :: p in WeightsFor(xs, bone) ==> Assignment(bone, p.0, p.1) in xs
  {
    if |xs| > 0 {
      var init := xs[..|xs| - 1];
      WeightsForFrom(init, bone);
      assert forall a :: a in init ==> a in xs;
    }
  }

  /** `vertex_groups.setdefault(bone_name, []).append((vertex_idx, bone_weight))`
      for every assignment in turn. */
  function Collect(xs: seq<Assignment>): (d: OrderedMap.Dict<Bytes, seq<(nat, nat)>>)
    ensures OrderedMap.Valid(d)
  {
    if |xs| == 0 then []
    else
      var last := xs[|xs| - 1];
      OrderedMap.Append(Collect(xs[..|xs| - 1]), last.bone, (last.vertex, last.weight))
  }

  /** A bone never assigned to has no weights. */
  lemma {:induction false} WeightsForAbsent(xs: seq<Assignment>, bone: Bytes)
    requires bone !in Bones(xs)
    ensures WeightsFor(xs, bone) == []
  {
    if |xs| > 0 {
      var init := xs[..|xs| - 1];
      assert Bones(xs) == Bones(init) + [xs[|xs| - 1].bone];
      WeightsForAbsent(init, bone);
    }
  }

  /** Every bone that was assigned to gets, in the order it was first
      assigned to, the list of its own assignments. */
  lemma {:induction false} CollectMeaning(xs: seq<Assignment>)
    ensures OrderedMap.Keys(Collect(xs)) == OrderedMap.FirstOccurrences(Bones(xs))
    ensures forall b :: OrderedMap.Get(Collect(xs), b) == if b in Bones(xs) then Some(WeightsFor(xs, b)) else None
  {
    CollectKeys(xs);
    forall b ensures OrderedMap.Get(Collect(xs), b) == if b in Bones(xs) then Some(WeightsFor(xs, b)) else None {
      CollectGet(xs, b);
    }
  }

  lemma {:induction false} CollectKeys(xs: seq<Assignment>)
    ensures OrderedMap.Keys(Collect(xs)) == OrderedMap.FirstOccurrences(Bones(xs))
  {
    if |xs| > 0 {
      var init := xs[..|xs| - 1];
      CollectKeys(init);
      var bs := Bones(xs);
      assert bs[..|bs| - 1] == Bones(init);
      OrderedMap.FirstOccurrencesMembers(Bones(init));
    }
  }

  lemma {:induction false} CollectGet(xs: seq<Assignment>, b: Bytes)
    ensures OrderedMap.Get(Collect(xs), b) == if b in Bones(xs) then Some(WeightsFor(xs, b)) else None
  {
    if |xs| > 0 {
      var init := xs[..|xs| - 1];
      var last := xs[|xs| - 1];
      CollectGet(init, b);
      assert Bones(xs) == Bones(init) + [last.bone];
      if b != last.bone {
        CollectOther(init, last, b);
      } else if b in Bones(init) {
        CollectPresent(init, last);
      } else {
        WeightsForAbsent(init, b);
        CollectAbsent(init, last);
      }
    }
  }

  lemma {:induction false} CollectOther(init: seq<Assignment>, last: Assignment, b: Bytes)
    requires b != last.bone
    requires OrderedMap.Get(Collect(init), b) == if b in Bones(init) then Some(WeightsFor(init, b)) else None
    ensures OrderedMap.Get(Collect(init + [last]), b) == OrderedMap.Get(Collect(init), b)
    ensures WeightsFor(init + [last], b) == WeightsFor(init, b)
  {
    assert (init + [last])[..|init|] == init;
  }

  lemma {:induction false} CollectPresent(init: seq<Assignment>, last: Assignment)
    requires OrderedMap.Get(Collect(init), last.bone) == Some(WeightsFor(init, last.bone))
    ensures OrderedMap.Get(Collect(init + [last]), last.bone) == Some(WeightsFor(init + [last], last.bone))
  {
    assert (init + [last])[..|init|] == init;
  }

  lemma {:induction false} CollectAbsent(init: seq<Assignment>, last: Assignment)
    requires OrderedMap.Get(Collect(init), last.bone) == None && WeightsFor(init, last.bone) == []
    ensures OrderedMap.Get(Collect(init + [last]), last.bone) == Some(WeightsFor(init + [last], last.bone))
  {
    assert (init + [last])[..|init|] == init;
  }

  lemma {:induction false} BonesAppend(xs: seq<Assignment>, x: Assignment)
    ensures Bones(xs + [x]) == Bones(xs) + [x.bone]
    ensures forall b :: b in Bones(xs + [x]) <==> b in Bones(xs) || b == x.bone
  {
    assert (xs + [x])[..|xs|] == xs;
  }

  /** A Blender vertex group after `add([vertex], weight, 'REPLACE')` for
      every pair in turn: each vertex with its last weight. */
  function Members(info: seq<(nat, nat)>): (d: OrderedMap.Dict<nat, nat>)
    ensures OrderedMap.Valid(d)
  {
    OrderedMap.FromPairs(info)
  }

  /** A vertex is in the group exactly when it was added, with the weight
      it was added with last. */
  lemma {:induction false} MembersMeaning(info: seq<(nat, nat)>)
    ensures forall v :: OrderedMap.Get(Members(info), v) == OrderedMap.LastValue(info, v)
  {
    OrderedMap.FromPairsMeaning(info);
  }
}
