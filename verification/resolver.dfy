/** `load_unit`: the asset-graph resolver of both copies of the importer
    (importer.py lines 366-424, blender_gladius/importer.py lines 260-306).
    The two differ in one point only: the root copy queues Begin/End
    extras after a movement clip.

    The resolver walks a parsed unit document and decides, in order, which
    meshes and which animation clips to load.  Loading a material or a mesh
    is a step of its own here; whether it succeeds is up to the mesh
    decoder and Blender, so the plan records the call and goes on.  The
    armature's bone names, which a weapon's parent bone is looked up in, are
    an oracle, and so is the file system (`AnimDecoder.Disk`). */
module Resolver {
  import opened Base
  import opened Text
  import opened Diagnostics
  import opened XmlTree
  import OrderedMap
  import Clips
  import AnimDecoder

  /** Which copy of `load_unit` runs. */
  datatype Copy = Root | Legacy

  /** One `load_animations(name, filename, count, suffix)` call. */
  datatype Clip = Clip(name: string, filename: string, count: Clips.Count, suffix: string)

  /** One call `load_unit` makes, in order. */
  datatype Step =
    | LoadMesh(mesh: string, material: string, parent: Option<string>)
    | LoadClips(clip: Clip)

  /** `loaded_animations`: file name to clip name and count, in insertion
      order. */
  type Registry = OrderedMap.Dict<string, (string, Clips.Count)>

  /** The state the loops of `load_unit` thread: the calls made so far, the
      registry, and `animation_suffixes`. */
  datatype Plan = Plan(steps: seq<Step>, registry: Registry, suffixes: seq<string>)

  predicate Good(p: Plan) {
    OrderedMap.Valid(p.registry)
  }

  const Empty: Plan := Plan([], [], [])

  /** `b` made every call `a` made, first. */
  predicate Extends(a: Plan, b: Plan) {
    |a.steps| <= |b.steps| && b.steps[..|a.steps|] == a.steps
  }

  lemma {:induction false} ExtendsTrans(a: Plan, b: Plan, c: Plan)
    requires Extends(a, b) && Extends(b, c)
    ensures Extends(a, c)
  {
    PrefixOfPrefix(c.steps, |b.steps|, |a.steps|);
  }

  /** A loop that may raise: the plan up to the call that raised, and what
      it raised. */
  datatype Stage = Stage(plan: Plan, fault: Option<Fault>)

  /** An attribute read as a clip count. */
  function CountOf(v: Option<string>): (c: Clips.Count)
    ensures c.Absent? <==> v.None?
    ensures v.Some? ==> c == Clips.Spelled(v.value)
  {
    if v.None? then Clips.Absent else Clips.Spelled(v.value)
  }

  /** `load_animations(name, path, count)` followed by
      `loaded_animations[path] = name, count`. */
  function Request(plan: Plan, name: string, path: string, count: Clips.Count): (r: Plan)
    requires Good(plan)
    ensures Good(r) && Extends(plan, r) && r.suffixes == plan.suffixes
    ensures r.steps == plan.steps + [LoadClips(Clip(name, path, count, ""))]
    ensures OrderedMap.Get(r.registry, path) == Some((name, count))
    ensures forall p :: p != path ==> OrderedMap.Get(r.registry, p) == OrderedMap.Get(plan.registry, p)
    ensures OrderedMap.Keys(r.registry)
            == if path in OrderedMap.Keys(plan.registry) then OrderedMap.Keys(plan.registry)
               else OrderedMap.Keys(plan.registry) + [path]
  {
    var steps := plan.steps + [LoadClips(Clip(name, path, count, ""))];
    PrefixOfAppend(plan.steps, [LoadClips(Clip(name, path, count, ""))]);
    Plan(steps, OrderedMap.Put(plan.registry, path, (name, count)), plan.suffixes)
  }

  /** One more call that does not touch the registry. */
  function Call(plan: Plan, step: Step): (r: Plan)
    requires Good(plan)
    ensures Good(r) && Extends(plan, r) && r.registry == plan.registry && r.suffixes == plan.suffixes
    ensures r.steps == plan.steps + [step]
  {
    PrefixOfAppend(plan.steps, [step]);
    Plan(plan.steps + [step], plan.registry, plan.suffixes)
  }

  // ---------------------------------------------------------------------
  // The units of the `model` element.

  /** Lines 370-377: one unit loads its material, then its mesh, then its
      idle clips.  `Path / None` raises TypeError, so the material and the
      mesh attribute must be there; the idle path is not checked against the
      registry. */
  function Unit(u: Element, plan: Plan): (r: Stage)
    requires Good(plan)
    ensures Good(r.plan) && Extends(plan, r.plan) && r.plan.suffixes == plan.suffixes
    ensures r.fault.None? <==> Get(u, "material").Some? && Get(u, "mesh").Some?
    ensures r.fault.Some? ==> r.fault == Some(NoneValue) && r.plan == plan
  {
    var material := Get(u, "material");
    var mesh := Get(u, "mesh");
    if material.None? || mesh.None? then Stage(plan, Some(NoneValue))
    else
      var loaded := Call(plan, LoadMesh(mesh.value, material.value, None));
      var idle := Get(u, "idleAnimation");
      if Truthy(idle) then
        var requested := Request(loaded, "idle", idle.value, CountOf(Get(u, "idleAnimationCount")));
        ExtendsTrans(plan, loaded, requested);
        Stage(requested, None)
      else Stage(loaded, None)
  }

  /** A unit with both attributes makes exactly its mesh call, then its
      idle call when `idleAnimation` is non-empty, and registers that path
      as `idle` with the unit's count. */
  lemma {:induction false} UnitSteps(u: Element, plan: Plan)
    requires Good(plan) && Unit(u, plan).fault.None?
    ensures var r := Unit(u, plan).plan;
            var mesh := LoadMesh(Get(u, "mesh").value, Get(u, "material").value, None);
            var idle := Get(u, "idleAnimation");
            var count := CountOf(Get(u, "idleAnimationCount"));
            && r.steps == plan.steps + [mesh] + (if Truthy(idle) then [LoadClips(Clip("idle", idle.value, count, ""))] else [])
            && (!Truthy(idle) ==> r.registry == plan.registry)
            && (Truthy(idle) ==> OrderedMap.Get(r.registry, idle.value) == Some(("idle", count)))
  {
  }

  function Units(us: seq<Element>, plan: Plan): (r: Stage)
    requires Good(plan)
    ensures Good(r.plan) && Extends(plan, r.plan) && r.plan.suffixes == plan.suffixes
    ensures r.fault.None? <==> forall u :: u in us ==> Get(u, "material").Some? && Get(u, "mesh").Some?
    ensures r.fault.Some? ==> r.fault == Some(NoneValue)
  {
    if |us| == 0 then Stage(plan, None)
    else
      var first := Unit(us[0], plan);
      if first.fault.Some? then first
      else
        var more := Units(us[1..], first.plan);
        more
  }

  /** The units loop runs the first unit, then the others from its plan. */
  lemma {:induction false} UnitsCons(u: Element, us: seq<Element>, plan: Plan)
    requires Good(plan)
    ensures var first := Unit(u, plan);
            Units([u] + us, plan) == if first.fault.Some? then first else Units(us, first.plan)
  {
    AppendCons([u], us);
  }

  // ---------------------------------------------------------------------
  // The weapons.

  /** The children of every element, in order. */
  function AllChildren(es: seq<Element>): (cs: seq<Element>)
    ensures forall e, c :: e in es && c in e.children ==> c in cs
  {
    if |es| == 0 then [] else es[0].children + AllChildren(es[1..])
  }

  /** `for e in es: for c in e.iterfind(tag)`. */
  function AllTagged(es: seq<Element>, tag: string): (cs: seq<Element>)
    ensures forall c :: c in cs ==> c.tag == tag
  {
    if |es| == 0 then [] else FindAll(es[0], tag) + AllTagged(es[1..], tag)
  }

  /** Lines 378-381: every child of every `model` of every `weapon` of
      every `weapons` element, in document order. */
  function WeaponEntries(root: Element): seq<Element> {
    AllChildren(AllTagged(AllTagged(FindAll(root, "weapons"), "weapon"), "model"))
  }

  /** `parent_bone`: `self.armature.bones[name]` for a non-empty `bone`
      attribute, which raises KeyError for a name the armature lacks. */
  function ParentBone(wt: Element, armature: set<string>): (r: Result<Option<string>>)
    ensures !Truthy(Get(wt, "bone")) ==> r == Ok(None)
    ensures Truthy(Get(wt, "bone")) ==>
              r == if Get(wt, "bone").value in armature then Ok(Some(Get(wt, "bone").value)) else Err(MissingKey)
  {
    var bone := Get(wt, "bone");
    if !Truthy(bone) then Ok(None)
    else if bone.value in armature then Ok(Some(bone.value))
    else Err(MissingKey)
  }

  /** Lines 382-396: a weapon entry with no `mesh` attribute is skipped; the
      parent bone is looked up before the test that both `mesh` and
      `material` are non-empty; only a loaded weapon contributes its
      animation suffix. */
  function WeaponType(wt: Element, plan: Plan, armature: set<string>): (r: Stage)
    requires Good(plan)
    ensures Good(r.plan) && Extends(plan, r.plan) && r.plan.registry == plan.registry
    ensures Get(wt, "mesh").None? ==> r == Stage(plan, None)
    ensures r.fault.Some? <==> Get(wt, "mesh").Some? && ParentBone(wt, armature).Err?
    ensures r.fault.Some? ==> r == Stage(plan, Some(MissingKey))
    ensures r.fault.None? && !(Truthy(Get(wt, "mesh")) && Truthy(Get(wt, "material"))) ==> r.plan == plan
    ensures r.fault.None? && Truthy(Get(wt, "mesh")) && Truthy(Get(wt, "material")) ==>
              && r.plan.steps == plan.steps + [LoadMesh(Get(wt, "mesh").value, Get(wt, "material").value, ParentBone(wt, armature).value)]
              && r.plan.suffixes == plan.suffixes + (if Truthy(Get(wt, "animationSuffix")) then [Get(wt, "animationSuffix").value] else [])
  {
    var mesh := Get(wt, "mesh");
    if mesh.None? then Stage(plan, None)
    else
      match ParentBone(wt, armature)
      case Err(f) => Stage(plan, Some(f))
      case Ok(parent) =>
        var material := Get(wt, "material");
        if Truthy(mesh) && Truthy(material) then
          var steps := plan.steps + [LoadMesh(mesh.value, material.value, parent)];
          PrefixOfAppend(plan.steps, [LoadMesh(mesh.value, material.value, parent)]);
          var suffix := Get(wt, "animationSuffix");
          var suffixes := plan.suffixes + (if Truthy(suffix) then [suffix.value] else []);
          Stage(Plan(steps, plan.registry, suffixes), None)
        else Stage(plan, None)
  }

  function Weapons(entries: seq<Element>, plan: Plan, armature: set<string>): (r: Stage)
    requires Good(plan)
    ensures Good(r.plan) && Extends(plan, r.plan) && r.plan.registry == plan.registry
    ensures r.fault.Some? ==> r.fault == Some(MissingKey)
    ensures r.fault.None? <==> forall wt :: wt in entries && Get(wt, "mesh").Some? ==> ParentBone(wt, armature).Ok?
  {
    if |entries| == 0 then Stage(plan, None)
    else
      var first := WeaponType(entries[0], plan, armature);
      if first.fault.Some? then first
      else
        var more := Weapons(entries[1..], first.plan, armature);
        more
  }

  // ---------------------------------------------------------------------
  // The actions.

  /** A Begin or End clip queued after a movement clip. */
  datatype Extra = Extra(name: string, path: string)

  /** `key.lower().endswith('animation')`. */
  predicate IsAnimationKey(key: string) {
    EndsWith(Lower(key), "animation")
  }

  /** `f'{action.tag}{suffix[:1].upper()}{suffix[1:]}'` with
      `suffix = key[:-len('animation')]`. */
  function ClipName(tag: string, key: string): (name: string)
    requires IsAnimationKey(key)
    ensures |key| >= 9
    ensures name == tag + CapitalizeFirst(key[..|key| - 9])
  {
    tag + CapitalizeFirst(key[..|key| - 9])
  }

  /** A path ending in `move` or `levitate`, in any case. */
  predicate Movement(path: string) {
    EndsWith(Lower(path), "move") || EndsWith(Lower(path), "levitate")
  }

  /** Lines 402-415 for one attribute of an inner `action` element of the
      action `tag`: the new plan and the extras it queues. */
  function Attribute(copy: Copy, tag: string, inner: Element, key: string, path: string, plan: Plan)
    : (r: (Plan, seq<Extra>))
    requires Good(plan)
    ensures Good(r.0) && Extends(plan, r.0) && r.0.suffixes == plan.suffixes
    ensures !IsAnimationKey(key) ==> r == (plan, [])
    ensures path in OrderedMap.Keys(plan.registry) ==> r == (plan, [])
    ensures IsAnimationKey(key) && path !in OrderedMap.Keys(plan.registry) ==>
              r.0 == Request(plan, ClipName(tag, key), path, CountOf(Get(inner, key + "Count")))
    ensures r.1 == if copy.Root? && IsAnimationKey(key) && path !in OrderedMap.Keys(plan.registry) && Movement(path)
                   then [Extra(ClipName(tag, key) + "Begin", path + "Begin"), Extra(ClipName(tag, key) + "End", path + "End")]
                   else []
  {
    if !IsAnimationKey(key) || path in OrderedMap.Keys(plan.registry) then (plan, [])
    else
      var name := ClipName(tag, key);
      var next := Request(plan, name, path, CountOf(Get(inner, key + "Count")));
      var extras := if copy.Root? && Movement(path) then [Extra(name + "Begin", path + "Begin"), Extra(name + "End", path + "End")] else [];
      (next, extras)
  }

  /** `for key, animation_path in action_inner.attrib.items()`. */
  function Attributes(copy: Copy, tag: string, inner: Element, entries: seq<(string, string)>, plan: Plan)
    : (r: (Plan, seq<Extra>))
    requires Good(plan)
    ensures Good(r.0) && Extends(plan, r.0) && r.0.suffixes == plan.suffixes
    decreases |entries|
  {
    if |entries| == 0 then (plan, [])
    else
      var first := Attribute(copy, tag, inner, entries[0].0, entries[0].1, plan);
      var more := Attributes(copy, tag, inner, entries[1..], first.0);
      (more.0, first.1 + more.1)
  }

  /** `for action_inner in model.iterfind('action')`. */
  function Inners(copy: Copy, tag: string, inners: seq<Element>, plan: Plan): (r: (Plan, seq<Extra>))
    requires Good(plan)
    ensures Good(r.0) && Extends(plan, r.0) && r.0.suffixes == plan.suffixes
  {
    if |inners| == 0 then (plan, [])
    else
      var first := Attributes(copy, tag, inners[0], inners[0].attributes, plan);
      var more := Inners(copy, tag, inners[1..], first.0);
      (more.0, first.1 + more.1)
  }

  /** The extras whose file exists. */
  function Existing(extras: seq<Extra>, disk: AnimDecoder.Disk): (es: seq<Extra>)
    ensures forall e :: e in es <==> e in extras && Clips.AnimationPath(e.path) in disk
  {
    if |extras| == 0 then []
    else (if Clips.AnimationPath(extras[0].path) in disk then [extras[0]] else []) + Existing(extras[1..], disk)
  }

  function ExtraSteps(extras: seq<Extra>): (ss: seq<Step>)
    ensures |ss| == |extras|
    ensures forall i :: 0 <= i < |extras| ==> ss[i] == LoadClips(Clip(extras[i].name, extras[i].path, Clips.Number(1), ""))
  {
    if |extras| == 0 then [] else [LoadClips(Clip(extras[0].name, extras[0].path, Clips.Number(1), ""))] + ExtraSteps(extras[1..])
  }

  /** Lines 416-420: an extra is loaded, with count 1, and registered only
      when its file exists; it is not checked against the registry. */
  function RunExtras(extras: seq<Extra>, plan: Plan, disk: AnimDecoder.Disk): (r: Plan)
    requires Good(plan)
    ensures Good(r) && r.suffixes == plan.suffixes
    ensures r.steps == plan.steps + ExtraSteps(Existing(extras, disk))
  {
    if |extras| == 0 then plan
    else
      var e := extras[0];
      var found := if Clips.AnimationPath(e.path) in disk then [e] else [];
      var next := if found == [e] then Request(plan, e.name, e.path, Clips.Number(1)) else plan;
      assert next.steps == plan.steps + ExtraSteps(found) by {
        if found == [e] {
          assert ExtraSteps(found) == [LoadClips(Clip(e.name, e.path, Clips.Number(1), ""))];
        }
      }
      var r := RunExtras(extras[1..], next, disk);
      RunExtrasStep(extras, disk, plan.steps, next.steps, r.steps);
      r
  }

  lemma {:induction false} RunExtrasStep(extras: seq<Extra>, disk: AnimDecoder.Disk, before: seq<Step>, middle: seq<Step>, after: seq<Step>)
    requires |extras| > 0
    requires var found := if Clips.AnimationPath(extras[0].path) in disk then [extras[0]] else [];
             middle == before + ExtraSteps(found)
    requires after == middle + ExtraSteps(Existing(extras[1..], disk))
    ensures after == before + ExtraSteps(Existing(extras, disk))
  {
    var found := if Clips.AnimationPath(extras[0].path) in disk then [extras[0]] else [];
    var rest := Existing(extras[1..], disk);
    assert Existing(extras, disk) == found + rest;
    ExtraStepsAppend(found, rest);
    AppendAssoc(before, ExtraSteps(found), ExtraSteps(rest));
  }

  /** Every extra that was loaded is registered, and no earlier entry is
      dropped. */
  lemma {:induction false} RunExtrasRegisters(extras: seq<Extra>, plan: Plan, disk: AnimDecoder.Disk)
    requires Good(plan)
    ensures var r := RunExtras(extras, plan, disk);
            && (forall e :: e in Existing(extras, disk) ==> e.path in OrderedMap.Keys(r.registry))
            && (forall p :: p in OrderedMap.Keys(plan.registry) ==> p in OrderedMap.Keys(r.registry))
  {
    if |extras| > 0 {
      var e := extras[0];
      var next := if Clips.AnimationPath(e.path) in disk then Request(plan, e.name, e.path, Clips.Number(1)) else plan;
      RunExtrasRegisters(extras[1..], next, disk);
      assert Existing(extras, disk) == (if Clips.AnimationPath(e.path) in disk then [e] else []) + Existing(extras[1..], disk);
    }
  }

  lemma {:induction false} ExtraStepsAppend(a: seq<Extra>, b: seq<Extra>)
    ensures ExtraSteps(a + b) == ExtraSteps(a) + ExtraSteps(b)
  {
    var l, r := ExtraSteps(a + b), ExtraSteps(a) + ExtraSteps(b);
    assert |l| == |r|;
    forall i | 0 <= i < |l| ensures l[i] == r[i] {
      if i < |a| { assert (a + b)[i] == a[i]; } else { assert (a + b)[i] == b[i - |a|]; }
    }
  }

  /** Lines 400-420 for one `model` of the action `tag`. */
  function ActionModel(copy: Copy, tag: string, model: Element, plan: Plan, disk: AnimDecoder.Disk): (r: Plan)
    requires Good(plan)
    ensures Good(r) && Extends(plan, r) && r.suffixes == plan.suffixes
  {
    var inners := Inners(copy, tag, FindAll(model, "action"), plan);
    var r := RunExtras(inners.1, inners.0, disk);
    PrefixOfAppend(inners.0.steps, ExtraSteps(Existing(inners.1, disk)));
    PrefixOfPrefix(r.steps, |inners.0.steps|, |plan.steps|);
    r
  }

  /** The models of the actions of one `actions` element, with their
      action's tag. */
  function ModelsOf(actions: seq<Element>): (ms: seq<(string, Element)>)
    ensures forall m :: m in ms ==> m.1.tag == "model"
  {
    if |actions| == 0 then []
    else
      var a := actions[0];
      Pairs(a.tag, FindAll(a, "model")) + ModelsOf(actions[1..])
  }

  function Pairs(tag: string, ms: seq<Element>): (ps: seq<(string, Element)>)
    requires forall m :: m in ms ==> m.tag == "model"
    ensures |ps| == |ms| && forall i :: 0 <= i < |ms| ==> ps[i] == (tag, ms[i])
  {
    if |ms| == 0 then [] else [(tag, ms[0])] + Pairs(tag, ms[1..])
  }

  /** Lines 397-399: every `model` of every action of every `actions`
      element, with the action's tag, in document order. */
  function ActionModels(root: Element): seq<(string, Element)> {
    ModelsOf(AllChildren(FindAll(root, "actions")))
  }

  function Actions(copy: Copy, models: seq<(string, Element)>, plan: Plan, disk: AnimDecoder.Disk): (r: Plan)
    requires Good(plan)
    ensures Good(r) && Extends(plan, r) && r.suffixes == plan.suffixes
  {
    if |models| == 0 then plan
    else
      var first := ActionModel(copy, models[0].0, models[0].1, plan, disk);
      var r := Actions(copy, models[1..], first, disk);
      PrefixOfPrefix(r.steps, |first.steps|, |plan.steps|);
      r
  }

  // ---------------------------------------------------------------------
  // The suffix replay.

  /** One suffix over the registry, in insertion order. */
  function ReplayOne(suffix: string, entries: Registry): (ss: seq<Step>)
    ensures |ss| == |entries|
    ensures forall j :: 0 <= j < |entries| ==>
              ss[j] == LoadClips(Clip(entries[j].1.0, entries[j].0, entries[j].1.1, suffix))
  {
    if |entries| == 0 then []
    else [LoadClips(Clip(entries[0].1.0, entries[0].0, entries[0].1.1, suffix))] + ReplayOne(suffix, entries[1..])
  }

  /** Lines 422-424: every registry entry again, once per weapon suffix,
      suffix by suffix. */
  function Replay(suffixes: seq<string>, registry: Registry): (ss: seq<Step>)
    ensures |ss| == Rows(|suffixes|, |registry|)
  {
    if |suffixes| == 0 then []
    else ReplayOne(suffixes[0], registry) + Replay(suffixes[1..], registry)
  }

  /** `i` rows of `n`, added up; `RowsIsProduct` shows it is `i * n`. */
  function Rows(i: nat, n: nat): nat {
    if i == 0 then 0 else n + Rows(i - 1, n)
  }

  lemma {:induction false} RowsIsProduct(i: nat, n: nat)
    ensures Rows(i, n) == i * n
  {
    if i > 0 {
      RowsIsProduct(i - 1, n);
    }
  }

  /** Call `Rows(i, |registry|) + j`, that is `i * |registry| + j`, of the
      replay is entry `j` with suffix `i`. */
  lemma {:induction false} ReplayAt(suffixes: seq<string>, registry: Registry, i: nat, j: nat)
    requires i < |suffixes| && j < |registry|
    ensures Rows(i, |registry|) + j < |Replay(suffixes, registry)|
    ensures Replay(suffixes, registry)[Rows(i, |registry|) + j] == Replayed(registry, j, suffixes[i])
  {
    if i == 0 {
      ReplayAtFirst(suffixes, registry, j);
    } else {
      ReplayAt(suffixes[1..], registry, i - 1, j);
      ReplayAtNext(suffixes, registry, i, j);
    }
  }

  /** The call that replays entry `j` with `suffix`. */
  function Replayed(registry: Registry, j: nat, suffix: string): Step
    requires j < |registry|
  {
    LoadClips(Clip(registry[j].1.0, registry[j].0, registry[j].1.1, suffix))
  }

  lemma {:induction false} ReplayAtFirst(suffixes: seq<string>, registry: Registry, j: nat)
    requires 0 < |suffixes| && j < |registry|
    ensures j < |Replay(suffixes, registry)|
    ensures Replay(suffixes, registry)[j] == Replayed(registry, j, suffixes[0])
  {
    var head := ReplayOne(suffixes[0], registry);
    assert Replay(suffixes, registry) == head + Replay(suffixes[1..], registry);
    assert head[j] == Replayed(registry, j, suffixes[0]);
  }

  lemma {:induction false} ReplayAtNext(suffixes: seq<string>, registry: Registry, i: nat, j: nat)
    requires 0 < i < |suffixes| && j < |registry|
    requires Rows(i - 1, |registry|) + j < |Replay(suffixes[1..], registry)|
    requires Replay(suffixes[1..], registry)[Rows(i - 1, |registry|) + j] == Replayed(registry, j, suffixes[i])
    ensures Rows(i, |registry|) + j < |Replay(suffixes, registry)|
    ensures Replay(suffixes, registry)[Rows(i, |registry|) + j] == Replayed(registry, j, suffixes[i])
  {
    var n := |registry|;
    var head := ReplayOne(suffixes[0], registry);
    var rest := Replay(suffixes[1..], registry);
    assert Replay(suffixes, registry) == head + rest;
    var k := Rows(i - 1, n) + j;
    assert Rows(i, n) + j == n + k;
    assert (head + rest)[n + k] == rest[k];
  }

  // ---------------------------------------------------------------------
  // The whole resolver.

  /** What `load_unit` decides: the messages it appends, the calls it
      makes in order, and the fault that stops it, if any. */
  datatype Resolution = Resolution(messages: seq<Diagnostic>, steps: seq<Step>, fault: Option<Fault>)

  /** `load_unit(filepath)` as far as the calls it makes: a root that is not
      `unit` stops at once; a document without `model` raises when it is
      iterated. */
  function Resolve(copy: Copy, path: string, root: Element, disk: AnimDecoder.Disk, armature: set<string>)
    : (r: Resolution)
    ensures root.tag != "unit" ==> r == Resolution([WrongRoot(path, "unit", root.tag)], [], Some(StopParsing))
    ensures root.tag == "unit" ==> r.messages == []
    ensures root.tag == "unit" && Find(root, "model").None? ==> r == Resolution([], [], Some(NoneValue))
    ensures r.fault.Some? ==> r.fault.value in {StopParsing, NoneValue, MissingKey}
  {
    var read := ReadXml(path, root, Some("unit"));
    if read.result.Err? then Resolution(read.messages, [], Some(read.result.fault))
    else
      match Find(root, "model")
      case None => Resolution([], [], Some(NoneValue))
      case Some(model) =>
        var units := Units(model.children, Empty);
        if units.fault.Some? then Resolution([], units.plan.steps, units.fault)
        else
          var weapons := Weapons(WeaponEntries(root), units.plan, armature);
          if weapons.fault.Some? then Resolution([], weapons.plan.steps, weapons.fault)
          else
            var done := Actions(copy, ActionModels(root), weapons.plan, disk);
            Resolution([], done.steps + Replay(done.suffixes, done.registry), None)
  }

  // ---------------------------------------------------------------------
  // Running the clip calls.

  /** The files the clip calls of a plan ask for, in order; the first count
      `int()` refuses stops the list. */
  function StepRequests(steps: seq<Step>): (r: Result<seq<Clips.Request>>)
    ensures r.Err? ==> r.fault == BadInteger
  {
    if |steps| == 0 then Ok([])
    else
      var head :- match steps[0]
                  case LoadMesh(_, _, _) => Ok([])
                  case LoadClips(c) => Clips.ClipRequests(c.name, c.filename, c.count, c.suffix);
      var tail :- StepRequests(steps[1..]);
      Ok(head + tail)
  }

  /** The clip calls of a plan run in order, against one skeleton; mesh
      calls are the mesh decoder's business and leave no action. */
  function RunSteps(steps: seq<Step>, disk: AnimDecoder.Disk, skeleton: set<Bytes.Bytes>)
    : (r: Outcome<seq<AnimDecoder.Action>>)
    ensures forall m :: m in r.messages ==> m.Severity() == Warning
    ensures r.result.Ok? ==> StepRequests(steps).Ok?
    ensures r.result.Ok? ==> Clips.NamedAs(r.result.value, Clips.Present(StepRequests(steps).value, disk))
  {
    if |steps| == 0 then Outcome([], Ok([]))
    else
      var first := match steps[0]
                   case LoadMesh(_, _, _) => Outcome([], Ok([]))
                   case LoadClips(c) => Clips.LoadAnimations(c.name, c.filename, c.count, c.suffix, disk, skeleton);
      if first.result.Err? then Outcome(first.messages, Err(first.result.fault))
      else
        var more := RunSteps(steps[1..], disk, skeleton);
        if more.result.Err? then Outcome(first.messages + more.messages, Err(more.result.fault))
        else
          var head := match steps[0]
                      case LoadMesh(_, _, _) => []
                      case LoadClips(c) => Clips.ClipRequests(c.name, c.filename, c.count, c.suffix).value;
          assert StepRequests(steps) == Ok(head + StepRequests(steps[1..]).value);
          Clips.PresentAppend(head, StepRequests(steps[1..]).value, disk);
          Clips.NamedAsAppend(first.result.value, Clips.Present(head, disk),
                              more.result.value, Clips.Present(StepRequests(steps[1..]).value, disk));
          Outcome(first.messages + more.messages, Ok(first.result.value + more.result.value))
  }

  /** `import_unit` up to the printing of the messages: the resolver's
      messages, then those of every clip call made before the first fault. */
  function LoadUnit(copy: Copy, path: string, root: Element, disk: AnimDecoder.Disk,
                    armature: set<string>, skeleton: set<Bytes.Bytes>)
    : (r: Outcome<seq<AnimDecoder.Action>>)
    ensures root.tag != "unit" ==> r == Outcome([WrongRoot(path, "unit", root.tag)], Err(StopParsing))
    ensures root.tag == "unit" ==> forall m :: m in r.messages ==> m.Severity() == Warning
    ensures r.result.Ok? ==> Resolve(copy, path, root, disk, armature).fault.None?
  {
    var plan := Resolve(copy, path, root, disk, armature);
    var run := RunSteps(plan.steps, disk, skeleton);
    var result := if run.result.Err? then Err(run.result.fault)
                  else if plan.fault.Some? then Err(plan.fault.value)
                  else run.result;
    Outcome(plan.messages + run.messages, result)
  }
}
