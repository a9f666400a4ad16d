/** `load_animations`, identical in both copies of the importer: one
    animation attribute becomes one clip, or `count` numbered clips, each
    read from its own `.anm` file under `Video/Animations`. */
module Clips {
  import opened Base
  import opened Bytes
  import opened Text
  import opened Diagnostics
  import AnimDecoder

  /** The `count` argument: not given (`None`), the text of an XML
      attribute, or the number the Begin/End extras pass. */
  datatype Count = Absent | Spelled(text: string) | Number(n: int)

  /** `int(count)`: a number is kept, a text is parsed as `int()` parses
      it, and anything it refuses raises ValueError. */
  function CountValue(count: Count): (r: Result<int>)
    requires !count.Absent?
    ensures r.Err? ==> r.fault == BadInteger
    ensures count.Number? ==> r == Ok(count.n)
    ensures count.Spelled? ==> (r.Ok? <==> ParseInt(count.text).Some?)
    ensures count.Spelled? && r.Ok? ==> Some(r.value) == ParseInt(count.text)
  {
    match count
    case Number(n) => Ok(n)
    case Spelled(text) =>
      match ParseInt(text)
      case None => Err(BadInteger)
      case Some(n) => Ok(n)
  }

  /** One `load_anm_file(name, filepath)` call: the clip's name and its path
      under the data root. */
  datatype Request = Request(name: string, path: string)

  const AnimationDir: string := "Video/Animations/"

  /** `data_root / 'Video/Animations' / f'{stem}.anm'`, relative to the data
      root. */
  function AnimationPath(stem: string): (p: string)
    ensures |p| == |AnimationDir| + |stem| + 4
    ensures p[..|AnimationDir|] == AnimationDir && p[|AnimationDir|..|AnimationDir| + |stem|] == stem
  {
    AnimationDir + stem + ".anm"
  }

  /** The single clip: `f'{name}{suffix}'` from `f'{filename}{suffix}.anm'`. */
  function Single(name: string, filename: string, suffix: string): Request {
    Request(name + suffix, AnimationPath(filename + suffix))
  }

  /** Clip `idx` of a numbered series: the index goes after the suffix in the
      clip name and before it in the file name. */
  function Numbered(name: string, filename: string, suffix: string, idx: nat): Request {
    Request(name + suffix + NatToString(idx), AnimationPath(filename + NatToString(idx) + suffix))
  }

  /** `for idx in range(n)`. */
  function Series(name: string, filename: string, suffix: string, n: nat): (rs: seq<Request>)
    ensures |rs| == n
    ensures forall idx :: 0 <= idx < n ==> rs[idx] == Numbered(name, filename, suffix, idx)
  {
    if n == 0 then [] else Series(name, filename, suffix, n - 1) + [Numbered(name, filename, suffix, n - 1)]
  }

  /** `range(n)` of a negative `n` is empty. */
  function RangeLength(n: int): nat {
    if n < 0 then 0 else n
  }

  /** Lines 316-321 (blender_gladius/importer.py lines 210-215): the files
      one `load_animations(name, filename, count, suffix)` call asks for. */
  function ClipRequests(name: string, filename: string, count: Count, suffix: string): (r: Result<seq<Request>>)
    ensures count.Absent? ==> r == Ok([Single(name, filename, suffix)])
    ensures !count.Absent? ==> (r.Ok? <==> CountValue(count).Ok?)
    ensures r.Err? ==> r.fault == BadInteger
    ensures !count.Absent? && CountValue(count) == Ok(1) ==> r == Ok([Single(name, filename, suffix)])
    ensures !count.Absent? && r.Ok? && CountValue(count).value != 1 ==>
              && |r.value| == RangeLength(CountValue(count).value)
              && forall idx :: 0 <= idx < |r.value| ==> r.value[idx] == Numbered(name, filename, suffix, idx)
  {
    if count.Absent? then Ok([Single(name, filename, suffix)])
    else
      var n :- CountValue(count);
      if n == 1 then Ok([Single(name, filename, suffix)])
      else Ok(Series(name, filename, suffix, RangeLength(n)))
  }

  /** `a + x + b == a + y + b` only when `x == y`. */
  lemma {:induction false} CancelAround(a: string, x: string, y: string, b: string)
    requires a + x + b == a + y + b
    ensures x == y
  {
    assert |x| == |y|;
    assert x == (a + x + b)[|a|..|a| + |x|];
    assert y == (a + y + b)[|a|..|a| + |y|];
  }

  /** Two clips of one series never share a name or a file. */
  lemma {:induction false} NumberedDistinct(name: string, filename: string, suffix: string, i: nat, j: nat)
    requires i != j
    ensures Numbered(name, filename, suffix, i).name != Numbered(name, filename, suffix, j).name
    ensures Numbered(name, filename, suffix, i).path != Numbered(name, filename, suffix, j).path
  {
    NumberedNamesDistinct(name, filename, suffix, i, j);
    NumberedPathsDistinct(name, filename, suffix, i, j);
  }

  lemma {:induction false} NumberedNamesDistinct(name: string, filename: string, suffix: string, i: nat, j: nat)
    requires i != j
    ensures Numbered(name, filename, suffix, i).name != Numbered(name, filename, suffix, j).name
  {
    var si, sj := NatToString(i), NatToString(j);
    if name + suffix + si == name + suffix + sj {
      assert name + suffix + si + [] == name + suffix + sj + [];
      CancelAround(name + suffix, si, sj, []);
      NatToStringInjective(i, j);
    }
  }

  lemma {:induction false} NumberedPathsDistinct(name: string, filename: string, suffix: string, i: nat, j: nat)
    requires i != j
    ensures Numbered(name, filename, suffix, i).path != Numbered(name, filename, suffix, j).path
  {
    var si, sj := NatToString(i), NatToString(j);
    var ext := suffix + ".anm";
    assert AnimationPath(filename + si + suffix) == AnimationDir + filename + si + ext;
    assert AnimationPath(filename + sj + suffix) == AnimationDir + filename + sj + ext;
    if AnimationDir + filename + si + ext == AnimationDir + filename + sj + ext {
      CancelAround(AnimationDir + filename, si, sj, ext);
      NatToStringInjective(i, j);
    }
  }

  /** The clips one call asks for have pairwise distinct names and pairwise
      distinct files. */
  lemma {:induction false} ClipRequestsDistinct(name: string, filename: string, count: Count, suffix: string)
    requires ClipRequests(name, filename, count, suffix).Ok?
    ensures var rs := ClipRequests(name, filename, count, suffix).value;
            forall i, j :: 0 <= i < j < |rs| ==> rs[i].name != rs[j].name && rs[i].path != rs[j].path
  {
    var rs := ClipRequests(name, filename, count, suffix).value;
    forall i, j | 0 <= i < j < |rs| ensures rs[i].name != rs[j].name && rs[i].path != rs[j].path {
      NumberedDistinct(name, filename, suffix, i, j);
    }
  }

  /** A count written out as text asks for the same clips as the number. */
  lemma {:induction false} SpelledCountAgrees(name: string, filename: string, n: nat, suffix: string)
    ensures ClipRequests(name, filename, Spelled(NatToString(n)), suffix) == ClipRequests(name, filename, Number(n), suffix)
  {
    ParseIntOfNatToString(n);
  }

  /** A count of 1 means no index at all. */
  lemma {:induction false} SingleClipExample()
    ensures ClipRequests("idle", "Units/Tank", Spelled("1"), "Gun") == Ok([Request("idleGun", "Video/Animations/Units/TankGun.anm")])
  {
    SpelledOne();
    SingleExample();
  }

  lemma {:induction false} SpelledOne()
    ensures CountValue(Spelled("1")) == Ok(1)
  {
    assert NatToString(1) == "1";
    ParseIntOfNatToString(1);
  }

  lemma {:induction false} SingleExample()
    ensures Single("idle", "Units/Tank", "Gun") == Request("idleGun", "Video/Animations/Units/TankGun.anm")
  {
    assert "idle" + "Gun" == "idleGun";
    assert AnimationPath("Units/Tank" + "Gun") == "Video/Animations/Units/TankGun.anm";
  }

  /** The suffix goes before the index in the clip name and after it in the
      file name. */
  lemma {:induction false} NumberedClipsExample()
    ensures ClipRequests("idle", "Units/Tank", Spelled("2"), "Gun")
            == Ok([Request("idleGun0", "Video/Animations/Units/Tank0Gun.anm"),
                   Request("idleGun1", "Video/Animations/Units/Tank1Gun.anm")])
  {
    assert NatToString(2) == "2";
    ParseIntOfNatToString(2);
    assert CountValue(Spelled("2")) == Ok(2);
    var rs := Series("idle", "Units/Tank", "Gun", 2);
    assert rs == [Numbered("idle", "Units/Tank", "Gun", 0), Numbered("idle", "Units/Tank", "Gun", 1)];
    NumberedExample();
  }

  lemma {:induction false} NumberedExample()
    ensures Numbered("idle", "Units/Tank", "Gun", 0) == Request("idleGun0", "Video/Animations/Units/Tank0Gun.anm")
    ensures Numbered("idle", "Units/Tank", "Gun", 1) == Request("idleGun1", "Video/Animations/Units/Tank1Gun.anm")
  {
    NumberedZero();
    NumberedOne();
  }

  /** Clip 0 of the example series. */
  lemma {:induction false} NumberedZero()
    ensures Numbered("idle", "Units/Tank", "Gun", 0) == Request("idleGun0", "Video/Animations/Units/Tank0Gun.anm")
  {
    assert NatToString(0) == "0";
    assert "idle" + "Gun" + "0" == "idleGun0";
    assert AnimationPath("Units/Tank" + "0" + "Gun") == "Video/Animations/Units/Tank0Gun.anm";
  }

  /** Clip 1 of the example series. */
  lemma {:induction false} NumberedOne()
    ensures Numbered("idle", "Units/Tank", "Gun", 1) == Request("idleGun1", "Video/Animations/Units/Tank1Gun.anm")
  {
    assert NatToString(1) == "1";
    assert "idle" + "Gun" + "1" == "idleGun1";
    assert AnimationPath("Units/Tank" + "1" + "Gun") == "Video/Animations/Units/Tank1Gun.anm";
  }

  /** A zero count asks for nothing; a count `int()` refuses fails. */
  lemma {:induction false} OddCountsExample()
    ensures ClipRequests("idle", "Units/Tank", Spelled("0"), "") == Ok([])
    ensures ClipRequests("idle", "Units/Tank", Spelled("two"), "") == Err(BadInteger)
  {
    assert NatToString(0) == "0";
    ParseIntOfNatToString(0);
    assert StripLeft("two") == "two";
    assert StripRight("two") == "two";
    assert !IsDigit("two"[0]);
  }

  /** The requests whose file exists, in order. */
  function Present(requests: seq<Request>, disk: AnimDecoder.Disk): (ps: seq<Request>)
    ensures forall r :: r in ps <==> r in requests && r.path in disk
  {
    if |requests| == 0 then []
    else (if requests[0].path in disk then [requests[0]] else []) + Present(requests[1..], disk)
  }

  function Paths(requests: seq<Request>): (ps: seq<string>)
    ensures |ps| == |requests| && forall i :: 0 <= i < |requests| ==> ps[i] == requests[i].path
  {
    if |requests| == 0 then [] else [requests[0].path] + Paths(requests[1..])
  }

  /** One action per request, each named as its request. */
  predicate NamedAs(actions: seq<AnimDecoder.Action>, requests: seq<Request>) {
    |actions| == |requests| && forall i :: 0 <= i < |actions| ==> actions[i].name == requests[i].name
  }

  lemma {:induction false} PresentAppend(a: seq<Request>, b: seq<Request>, disk: AnimDecoder.Disk)
    ensures Present(a + b, disk) == Present(a, disk) + Present(b, disk)
  {
    if |a| > 0 {
      assert (a + b)[0] == a[0];
      assert (a + b)[1..] == a[1..] + b;
      PresentAppend(a[1..], b, disk);
    } else {
      assert a + b == b;
    }
  }

  lemma {:induction false} NamedAsAppend(a: seq<AnimDecoder.Action>, qa: seq<Request>,
                                         b: seq<AnimDecoder.Action>, qb: seq<Request>)
    requires NamedAs(a, qa) && NamedAs(b, qb)
    ensures NamedAs(a + b, qa + qb)
  {
    forall i | 0 <= i < |a + b| ensures (a + b)[i].name == (qa + qb)[i].name {
      if i >= |a| {
        assert (a + b)[i] == b[i - |a|] && (qa + qb)[i] == qb[i - |a|];
      }
    }
  }

  lemma {:induction false} NamedStep(requests: seq<Request>, disk: AnimDecoder.Disk,
                                     actions: seq<AnimDecoder.Action>, more: seq<AnimDecoder.Action>)
    requires |requests| > 0
    requires NamedAs(actions, if requests[0].path in disk then [requests[0]] else [])
    requires NamedAs(more, Present(requests[1..], disk))
    ensures NamedAs(actions + more, Present(requests, disk))
  {
    var here := if requests[0].path in disk then [requests[0]] else [];
    assert Present(requests, disk) == here + Present(requests[1..], disk);
    NamedAsAppend(actions, here, more, Present(requests[1..], disk));
  }

  /** One `load_anm_file` per request, in order; the first fault stops the
      rest, keeping the messages appended so far.  Every request whose file
      exists makes one action, named as requested. */
  function LoadRequests(requests: seq<Request>, disk: AnimDecoder.Disk, skeleton: set<Bytes>)
    : (r: Outcome<seq<AnimDecoder.Action>>)
    ensures forall m :: m in r.messages ==> m.Severity() == Warning
    ensures r.result.Ok? ==> NamedAs(r.result.value, Present(requests, disk))
  {
    if |requests| == 0 then Outcome([], Ok([]))
    else
      var q := requests[0];
      var first := AnimDecoder.LoadAnm(q.name, q.path, disk, skeleton);
      if first.result.Err? then Outcome(first.messages, Err(first.result.fault))
      else
        var more := LoadRequests(requests[1..], disk, skeleton);
        var actions := if first.result.value.Some? then [first.result.value.value] else [];
        var result := if more.result.Err? then Err(more.result.fault) else Ok(actions + more.result.value);
        assert result.Ok? ==> NamedAs(result.value, Present(requests, disk)) by {
          if result.Ok? {
            assert NamedAs(actions, if q.path in disk then [q] else []);
            NamedStep(requests, disk, actions, more.result.value);
          }
        }
        Outcome(first.messages + more.messages, result)
  }

  /** A request whose file is missing leaves exactly the warning naming its
      path: every missing file is reported once the loop completes, and no
      other file is ever reported missing. */
  lemma {:induction false} LoadRequestsReportsMissing(requests: seq<Request>, disk: AnimDecoder.Disk, skeleton: set<Bytes>)
    ensures var r := LoadRequests(requests, disk, skeleton);
            r.result.Ok? ==> forall q :: q in requests && q.path !in disk ==> MissingFile(q.path) in r.messages
    ensures var r := LoadRequests(requests, disk, skeleton);
            forall m :: m in r.messages && m.MissingFile? ==> m.path in Paths(requests) && m.path !in disk
  {
    if |requests| > 0 {
      var q := requests[0];
      LoadRequestsReportsMissing(requests[1..], disk, skeleton);
      assert requests == [q] + requests[1..];
      assert Paths(requests) == [q.path] + Paths(requests[1..]);
    }
  }

  /** `load_animations(name, filename, count, suffix)`: an unreadable count
      fails before any file is opened. */
  function LoadAnimations(name: string, filename: string, count: Count, suffix: string,
                          disk: AnimDecoder.Disk, skeleton: set<Bytes>)
    : (r: Outcome<seq<AnimDecoder.Action>>)
    ensures ClipRequests(name, filename, count, suffix).Err? ==> r == Outcome([], Err(BadInteger))
    ensures ClipRequests(name, filename, count, suffix).Ok? ==>
              r == LoadRequests(ClipRequests(name, filename, count, suffix).value, disk, skeleton)
  {
    match ClipRequests(name, filename, count, suffix)
    case Err(f) => Outcome([], Err(f))
    case Ok(requests) => LoadRequests(requests, disk, skeleton)
  }
}
