/** The skinning pairs of one vertex as the root copy of `load_msh_file`
    collects them: `sorted(zip(indices, weights))`, then every pair whose
    weight equals zero dropped.

    Indices and weights are both floats in the file.  Python compares the
    pairs as tuples, first by index and then by weight, with `<` on floats;
    `Float32.OrderKey` gives that order for every float that is not a NaN. */
module Skin {
  import opened Base
  import Float32
  import OrderedMap

  /** (bone index, bone weight), both as float words. */
  type Pair = (nat, nat)

  /** `zip(a, b)`: as many pairs as the shorter side has items. */
  function Zip(a: seq<nat>, b: seq<nat>): (r: seq<Pair>)
    ensures |r| == if |a| < |b| then |a| else |b|
    ensures forall i :: 0 <= i < |r| ==> r[i] == (a[i], b[i])
  {
    if |a| == 0 || |b| == 0 then [] else [(a[0], b[0])] + Zip(a[1..], b[1..])
  }

  /** Lexicographic `<` on two pairs of integer keys. */
  predicate LexLess(a: (int, int), b: (int, int)) {
    a.0 < b.0 || (a.0 == b.0 && a.1 < b.1)
  }

  function Key(p: Pair): (int, int) {
    (Float32.OrderKey(p.0), Float32.OrderKey(p.1))
  }

  /** Tuple `p < q` on pairs of non-NaN floats. */
  predicate Less(p: Pair, q: Pair) {
    LexLess(Key(p), Key(q))
  }

  /** No pair is smaller than one before it. */
  predicate Sorted(ps: seq<Pair>) {
    forall i, j :: 0 <= i < j < |ps| ==> !Less(ps[j], ps[i])
  }

  lemma {:induction false} LessTransitive(p: Pair, q: Pair, r: Pair)
    requires !Less(q, p) && !Less(r, q)
    ensures !Less(r, p)
  {
  }

  lemma {:induction false} LessAsymmetric(p: Pair, q: Pair)
    requires Less(p, q)
    ensures !Less(q, p)
  {
  }

  /** Puts `p` before the first pair larger than it, so after every pair
      that compares equal to it. */
  function Insert(p: Pair, ps: seq<Pair>): (r: seq<Pair>)
    requires Sorted(ps)
    ensures Sorted(r)
    ensures multiset(r) == multiset(ps) + multiset{p}
    ensures forall x :: x in r <==> x in ps || x == p
  {
    if |ps| == 0 then [p]
    else if Less(p, ps[0]) then
      LessAsymmetric(p, ps[0]);
      SortedHead(ps);
      BelowHead(p, ps);
      SortedCons(p, ps);
      [p] + ps
    else
      SortedHead(ps);
      var tail := Insert(p, ps[1..]);
      TailAbove(ps[0], ps[1..], p, tail);
      SortedCons(ps[0], tail);
      HeadTail(ps);
      [ps[0]] + tail
  }

  /** A sorted sequence is its head followed by a sorted tail that no pair
      of it undercuts. */
  lemma {:induction false} SortedHead(ps: seq<Pair>)
    requires Sorted(ps) && |ps| > 0
    ensures Sorted(ps[1..])
    ensures forall j :: 0 <= j < |ps| - 1 ==> !Less(ps[1..][j], ps[0])
  {
    forall j | 0 <= j < |ps| - 1 ensures !Less(ps[1..][j], ps[0]) {
      assert ps[1..][j] == ps[j + 1];
    }
  }

  lemma {:induction false} SortedCons(x: Pair, ps: seq<Pair>)
    requires Sorted(ps)
    requires forall j :: 0 <= j < |ps| ==> !Less(ps[j], x)
    ensures Sorted([x] + ps)
  {
    var r := [x] + ps;
    forall i, j | 0 <= i < j < |r| ensures !Less(r[j], r[i]) {
      assert r[j] == ps[j - 1];
      if i > 0 {
        assert r[i] == ps[i - 1];
      }
    }
  }

  /** Nothing in a sorted sequence is below a pair its head is not below. */
  lemma {:induction false} BelowHead(x: Pair, ps: seq<Pair>)
    requires Sorted(ps) && |ps| > 0 && !Less(ps[0], x)
    ensures forall j :: 0 <= j < |ps| ==> !Less(ps[j], x)
  {
    forall j | 0 < j < |ps| ensures !Less(ps[j], x) {
      LessTransitive(x, ps[0], ps[j]);
    }
  }

  /** The pairs of an insertion into `rest` are all above `h` when `rest`
      and the inserted pair are. */
  lemma {:induction false} TailAbove(h: Pair, rest: seq<Pair>, p: Pair, tail: seq<Pair>)
    requires forall j :: 0 <= j < |rest| ==> !Less(rest[j], h)
    requires !Less(p, h)
    requires forall x :: x in tail <==> x in rest || x == p
    ensures forall j :: 0 <= j < |tail| ==> !Less(tail[j], h)
  {
    forall j | 0 <= j < |tail| ensures !Less(tail[j], h) {
      assert tail[j] in tail;
      if tail[j] != p {
        var k :| 0 <= k < |rest| && rest[k] == tail[j];
      }
    }
  }

  /** `sorted(ps)`: a stable sort (insertion sort from the left). */
  function Sort(ps: seq<Pair>): (r: seq<Pair>)
    ensures Sorted(r)
    ensures multiset(r) == multiset(ps)
    ensures forall x :: x in r <==> x in ps
  {
    if |ps| == 0 then []
    else
      assert ps == ps[..|ps| - 1] + [ps[|ps| - 1]];
      Insert(ps[|ps| - 1], Sort(ps[..|ps| - 1]))
  }

  /** The pairs whose weight is not zero (`if bone_weight == 0: continue`). */
  function NonZero(ps: seq<Pair>): (r: seq<Pair>)
    ensures |r| <= |ps|
    ensures forall i :: 0 <= i < |r| ==> !Float32.IsZero(r[i].1)
    ensures forall x :: x in r <==> x in ps && !Float32.IsZero(x.1)
  {
    if |ps| == 0 then []
    else if Float32.IsZero(ps[0].1) then NonZero(ps[1..])
    else [ps[0]] + NonZero(ps[1..])
  }

  lemma {:induction false} NonZeroSorted(ps: seq<Pair>)
    requires Sorted(ps)
    ensures Sorted(NonZero(ps))
  {
    if |ps| > 0 {
      NonZeroSorted(ps[1..]);
    }
  }

  /** The pairs the root copy appends after the four default zeros. */
  function RealPairs(ids: seq<nat>, weights: seq<nat>): (r: seq<Pair>)
    ensures Sorted(r)
    ensures forall i :: 0 <= i < |r| ==> !Float32.IsZero(r[i].1)
    ensures forall x :: x in r <==> x in Zip(ids, weights) && !Float32.IsZero(x.1)
  {
    var sorted := Sort(Zip(ids, weights));
    NonZeroSorted(sorted);
    NonZero(sorted)
  }

  /** Every zero-weight pair is dropped, and every other pair is kept as
      often as it occurs. */
  lemma {:induction false} NonZeroCounts(ps: seq<Pair>, x: Pair)
    ensures multiset(NonZero(ps))[x] == if Float32.IsZero(x.1) then 0 else multiset(ps)[x]
  {
    if |ps| > 0 {
      NonZeroCounts(ps[1..], x);
      assert ps == [ps[0]] + ps[1..];
    }
  }

  /** `sorted` leaves an already sorted list as it is: it is stable. */
  lemma {:induction false} SortOfSorted(ps: seq<Pair>)
    requires Sorted(ps)
    ensures Sort(ps) == ps
  {
    if |ps| > 0 {
      var init := ps[..|ps| - 1];
      SortedInit(ps);
      SortOfSorted(init);
      InsertAtEnd(ps[|ps| - 1], init);
      InitLast(ps);
    }
  }

  /** Dropping the last pair keeps a list sorted, and that pair is below
      none of the others. */
  lemma {:induction false} SortedInit(ps: seq<Pair>)
    requires Sorted(ps) && |ps| > 0
    ensures Sorted(ps[..|ps| - 1])
    ensures forall i :: 0 <= i < |ps| - 1 ==> !Less(ps[|ps| - 1], ps[i])
  {
  }

  /** Inserting a pair no smaller than any pair of a sorted list appends it. */
  lemma {:induction false} InsertAtEnd(p: Pair, ps: seq<Pair>)
    requires Sorted(ps)
    requires forall i :: 0 <= i < |ps| ==> !Less(p, ps[i])
    ensures Insert(p, ps) == ps + [p]
  {
    if |ps| > 0 {
      InsertAtEnd(p, ps[1..]);
      assert ps == [ps[0]] + ps[1..];
    }
  }

  /** Two pairs with equal keys keep their input order (the index 0.0 and
      -0.0 compare equal, so only stability orders them). */
  lemma {:induction false} StableOnTies(p: Pair, q: Pair)
    requires Float32.OrderKey(p.0) == Float32.OrderKey(q.0)
    requires Float32.OrderKey(p.1) == Float32.OrderKey(q.1)
    ensures Sort([p, q]) == [p, q]
  {
    assert [p, q][..1] == [p];
    assert [p][..0] == [];
  }

  /** Splitting pairs into their two components (`OrderedMap.Keys` and
      `OrderedMap.Values` of the pair list) and zipping them again gives
      the pairs back. */
  lemma {:induction false} ZipOfComponents(ps: seq<Pair>)
    ensures Zip(OrderedMap.Keys(ps), OrderedMap.Values(ps)) == ps
  {
    if |ps| > 0 {
      ZipOfComponents(ps[1..]);
    }
  }
}
