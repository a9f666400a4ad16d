/** The older `load_unit` (blender_gladius/importer.py lines 260-306)
    against the root copy's: without the Begin/End extras every action
    path is requested at most once before the suffix replay, and on a
    document with no movement clip the two copies make the same calls. */
module LegacyResolver {
  import opened Base
  import opened XmlTree
  import OrderedMap
  import Clips
  import AnimDecoder
  import opened Resolver

  /** The file names of the clip calls among `steps`, in order. */
  function ClipFiles(steps: seq<Step>): (fs: seq<string>)
    ensures |fs| <= |steps|
  {
    if |steps| == 0 then []
    else (if steps[0].LoadClips? then [steps[0].clip.filename] else []) + ClipFiles(steps[1..])
  }

  lemma {:induction false} ClipFilesAppend(a: seq<Step>, b: seq<Step>)
    ensures ClipFiles(a + b) == ClipFiles(a) + ClipFiles(b)
  {
    if |a| == 0 {
      assert a + b == b;
    } else {
      assert (a + b)[0] == a[0];
      assert (a + b)[1..] == a[1..] + b;
      ClipFilesAppend(a[1..], b);
    }
  }

  /** `b` extends `a`, and the registry grew by exactly the files of the
      clip calls `b` added, in call order. */
  predicate Registers(a: Plan, b: Plan) {
    && Extends(a, b)
    && OrderedMap.Keys(b.registry) == OrderedMap.Keys(a.registry) + ClipFiles(b.steps[|a.steps|..])
  }

  lemma {:induction false} RegistersTrans(a: Plan, b: Plan, c: Plan)
    requires Registers(a, b) && Registers(b, c)
    ensures Registers(a, c)
  {
    ExtendsTrans(a, b, c);
    SuffixOfExtension(b.steps, c.steps, |a.steps|);
    ClipFilesAppend(b.steps[|a.steps|..], c.steps[|b.steps|..]);
    AppendAssoc(OrderedMap.Keys(a.registry), ClipFiles(b.steps[|a.steps|..]), ClipFiles(c.steps[|b.steps|..]));
  }

  lemma {:induction false} AttributeRegisters(copy: Copy, tag: string, inner: Element, key: string, path: string, plan: Plan)
    requires Good(plan)
    ensures Registers(plan, Attribute(copy, tag, inner, key, path, plan).0)
  {
    var r := Attribute(copy, tag, inner, key, path, plan).0;
    if IsAnimationKey(key) && path !in OrderedMap.Keys(plan.registry) {
      var step := LoadClips(Clip(ClipName(tag, key), path, CountOf(Get(inner, key + "Count")), ""));
      assert r.steps[|plan.steps|..] == [step];
      assert ClipFiles([step]) == [path];
    } else {
      assert r.steps[|plan.steps|..] == [];
    }
  }

  lemma {:induction false} AttributesRegisters(copy: Copy, tag: string, inner: Element, entries: seq<(string, string)>, plan: Plan)
    requires Good(plan)
    ensures Registers(plan, Attributes(copy, tag, inner, entries, plan).0)
    decreases |entries|
  {
    if |entries| == 0 {
      assert plan.steps[|plan.steps|..] == [];
    } else {
      var first := Attribute(copy, tag, inner, entries[0].0, entries[0].1, plan);
      AttributeRegisters(copy, tag, inner, entries[0].0, entries[0].1, plan);
      AttributesRegisters(copy, tag, inner, entries[1..], first.0);
      RegistersTrans(plan, first.0, Attributes(copy, tag, inner, entries[1..], first.0).0);
    }
  }

  lemma {:induction false} InnersRegisters(copy: Copy, tag: string, inners: seq<Element>, plan: Plan)
    requires Good(plan)
    ensures Registers(plan, Inners(copy, tag, inners, plan).0)
  {
    if |inners| == 0 {
      assert plan.steps[|plan.steps|..] == [];
    } else {
      var first := Attributes(copy, tag, inners[0], inners[0].attributes, plan);
      AttributesRegisters(copy, tag, inners[0], inners[0].attributes, plan);
      InnersRegisters(copy, tag, inners[1..], first.0);
      RegistersTrans(plan, first.0, Inners(copy, tag, inners[1..], first.0).0);
    }
  }

  /** The older copy queues no extras. */
  lemma {:induction false} LegacyQueuesNothing(tag: string, inners: seq<Element>, plan: Plan)
    requires Good(plan)
    ensures Inners(Legacy, tag, inners, plan).1 == []
  {
    if |inners| > 0 {
      var first := Attributes(Legacy, tag, inners[0], inners[0].attributes, plan);
      AttributesQueueNothing(tag, inners[0], inners[0].attributes, plan);
      LegacyQueuesNothing(tag, inners[1..], first.0);
    }
  }

  lemma {:induction false} AttributesQueueNothing(tag: string, inner: Element, entries: seq<(string, string)>, plan: Plan)
    requires Good(plan)
    ensures Attributes(Legacy, tag, inner, entries, plan).1 == []
    decreases |entries|
  {
    if |entries| > 0 {
      var first := Attribute(Legacy, tag, inner, entries[0].0, entries[0].1, plan);
      AttributesQueueNothing(tag, inner, entries[1..], first.0);
    }
  }

  lemma {:induction false} LegacyActionsRegister(models: seq<(string, Element)>, plan: Plan, disk: AnimDecoder.Disk)
    requires Good(plan)
    ensures Registers(plan, Actions(Legacy, models, plan, disk))
  {
    if |models| == 0 {
      assert plan.steps[|plan.steps|..] == [];
    } else {
      var tag, model := models[0].0, models[0].1;
      var inners := Inners(Legacy, tag, FindAll(model, "action"), plan);
      InnersRegisters(Legacy, tag, FindAll(model, "action"), plan);
      LegacyQueuesNothing(tag, FindAll(model, "action"), plan);
      var first := ActionModel(Legacy, tag, model, plan, disk);
      assert first == inners.0;
      LegacyActionsRegister(models[1..], first, disk);
      RegistersTrans(plan, first, Actions(Legacy, models[1..], first, disk));
    }
  }

  /** Lines 290-302: an action path already in `loaded_animations` is
      skipped, so the older copy requests every action path once at most,
      and never one the units already requested. */
  lemma {:induction false} ActionPathsOnce(models: seq<(string, Element)>, plan: Plan, disk: AnimDecoder.Disk)
    requires Good(plan)
    ensures var r := Actions(Legacy, models, plan, disk);
            var added := ClipFiles(r.steps[|plan.steps|..]);
            && (forall i, j :: 0 <= i < j < |added| ==> added[i] != added[j])
            && (forall f :: f in added ==> f !in OrderedMap.Keys(plan.registry))
  {
    var r := Actions(Legacy, models, plan, disk);
    LegacyActionsRegister(models, plan, disk);
    DistinctSplit(OrderedMap.Keys(plan.registry), ClipFiles(r.steps[|plan.steps|..]));
  }

  /** The two halves of a sequence without repeats have no repeats and
      nothing in common. */
  lemma {:induction false} DistinctSplit(before: seq<string>, added: seq<string>)
    requires OrderedMap.Distinct(before + added)
    ensures forall i, j :: 0 <= i < j < |added| ==> added[i] != added[j]
    ensures forall f :: f in added ==> f !in before
  {
    var keys := before + added;
    forall i, j | 0 <= i < j < |added| ensures added[i] != added[j] {
      assert keys[|before| + i] == added[i] && keys[|before| + j] == added[j];
    }
    forall i, j | 0 <= i < |before| && 0 <= j < |added| ensures before[i] != added[j] {
      assert keys[i] == before[i] && keys[|before| + j] == added[j];
    }
  }

  // ---------------------------------------------------------------------
  // The copies agree on documents without movement clips.

  /** No attribute of any inner `action` of the models names a path ending
      in `move` or `levitate`. */
  predicate NoMovement(models: seq<(string, Element)>) {
    forall m :: m in models ==> forall inner :: inner in FindAll(m.1, "action") ==> QuietInner(inner)
  }

  predicate QuietInner(inner: Element) {
    forall e :: e in inner.attributes ==> !Movement(e.1)
  }

  lemma {:induction false} AttributesAgree(tag: string, inner: Element, entries: seq<(string, string)>, plan: Plan)
    requires Good(plan)
    requires forall e :: e in entries ==> !Movement(e.1)
    ensures Attributes(Root, tag, inner, entries, plan) == Attributes(Legacy, tag, inner, entries, plan)
    ensures Attributes(Root, tag, inner, entries, plan).1 == []
    decreases |entries|
  {
    if |entries| > 0 {
      var first := Attribute(Root, tag, inner, entries[0].0, entries[0].1, plan);
      assert entries[0] in entries;
      assert forall e :: e in entries[1..] ==> e in entries;
      AttributesAgree(tag, inner, entries[1..], first.0);
    }
  }

  lemma {:induction false} InnersAgree(tag: string, inners: seq<Element>, plan: Plan)
    requires Good(plan)
    requires forall inner :: inner in inners ==> QuietInner(inner)
    ensures Inners(Root, tag, inners, plan) == Inners(Legacy, tag, inners, plan)
    ensures Inners(Root, tag, inners, plan).1 == []
  {
    if |inners| > 0 {
      assert inners[0] in inners;
      AttributesAgree(tag, inners[0], inners[0].attributes, plan);
      var first := Attributes(Root, tag, inners[0], inners[0].attributes, plan);
      assert forall inner :: inner in inners[1..] ==> inner in inners;
      InnersAgree(tag, inners[1..], first.0);
    }
  }

  lemma {:induction false} ActionsAgree(models: seq<(string, Element)>, plan: Plan, disk: AnimDecoder.Disk)
    requires Good(plan) && NoMovement(models)
    ensures Actions(Root, models, plan, disk) == Actions(Legacy, models, plan, disk)
  {
    if |models| > 0 {
      assert models[0] in models;
      InnersAgree(models[0].0, FindAll(models[0].1, "action"), plan);
      var first := ActionModel(Root, models[0].0, models[0].1, plan, disk);
      assert first == ActionModel(Legacy, models[0].0, models[0].1, plan, disk);
      assert forall m :: m in models[1..] ==> m in models;
      ActionsAgree(models[1..], first, disk);
    }
  }

  /** The Begin/End extras are the only difference between the copies: on a
      document whose action paths never end in `move` or `levitate`, both
      make the same calls and raise the same faults. */
  lemma {:induction false} ResolveAgree(path: string, root: Element, disk: AnimDecoder.Disk, armature: set<string>)
    requires NoMovement(ActionModels(root))
    ensures Resolve(Root, path, root, disk, armature) == Resolve(Legacy, path, root, disk, armature)
  {
    if root.tag == "unit" && Find(root, "model").Some? {
      var units := Units(Find(root, "model").value.children, Empty);
      if units.fault.None? {
        var weapons := Weapons(WeaponEntries(root), units.plan, armature);
        if weapons.fault.None? {
          ActionsAgree(ActionModels(root), weapons.plan, disk);
        }
      }
    }
  }

  /** The idle loop (lines 264-270) does not consult `loaded_animations`:
      two units with the same idle path request it twice. */
  lemma {:induction false} IdleRequestedTwice(u: Element)
    requires Get(u, "material").Some? && Get(u, "mesh").Some? && Truthy(Get(u, "idleAnimation"))
    ensures var steps := Units([u, u], Empty).plan.steps;
            var idle := LoadClips(Clip("idle", Get(u, "idleAnimation").value, CountOf(Get(u, "idleAnimationCount")), ""));
            Units([u, u], Empty).fault.None? && |steps| == 4 && steps[1] == idle && steps[3] == idle
  {
    var first := Unit(u, Empty);
    IdleTwiceSteps(u);
    UnitsCons(u, [], first.plan);
    UnitsCons(u, [u], Empty);
    PairAppend(u, u);
  }

  /** The calls of the same unit run twice from the empty plan. */
  lemma {:induction false} IdleTwiceSteps(u: Element)
    requires Get(u, "material").Some? && Get(u, "mesh").Some? && Truthy(Get(u, "idleAnimation"))
    ensures var first := Unit(u, Empty);
            var second := Unit(u, first.plan);
            var steps := second.plan.steps;
            var idle := LoadClips(Clip("idle", Get(u, "idleAnimation").value, CountOf(Get(u, "idleAnimationCount")), ""));
            first.fault.None? && second.fault.None? && |steps| == 4 && steps[1] == idle && steps[3] == idle
  {
    var idle := LoadClips(Clip("idle", Get(u, "idleAnimation").value, CountOf(Get(u, "idleAnimationCount")), ""));
    var first := Unit(u, Empty);
    UnitSteps(u, Empty);
    var second := Unit(u, first.plan);
    UnitSteps(u, first.plan);
    var mesh := LoadMesh(Get(u, "mesh").value, Get(u, "material").value, None);
    AppendTwo([], mesh, idle);
    AppendTwo(first.plan.steps, mesh, idle);
  }
}
