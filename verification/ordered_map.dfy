/** Python's `dict`: distinct keys kept in first-insertion order.

    The importer relies on this order twice: the vertex layout is iterated in
    the order its names first appear in the file, and the animation registry
    is replayed in the order its paths were first loaded.  Assigning to a key
    that is already present replaces the value but keeps the position. */
module OrderedMap {
  import opened Base

  type Dict<K, V> = seq<(K, V)>

  /** The keys, in order: the first components of the entries.  Any list
      of pairs can be read this way, and the other modules project pair
      lists with `Keys` and `Values`. */
  function Keys<K, V>(d: Dict<K, V>): (ks: seq<K>)
    ensures |ks| == |d|
    ensures forall i :: 0 <= i < |d| ==> ks[i] == d[i].0
  {
    if |d| == 0 then [] else [d[0].0] + Keys(d[1..])
  }

  /** The values, in order: the second components of the entries. */
  function Values<K, V>(d: Dict<K, V>): (vs: seq<V>)
    ensures |vs| == |d|
    ensures forall i :: 0 <= i < |d| ==> vs[i] == d[i].1
  {
    if |d| == 0 then [] else [d[0].1] + Values(d[1..])
  }

  predicate Distinct<K(==)>(ks: seq<K>) {
    forall i, j :: 0 <= i < j < |ks| ==> ks[i] != ks[j]
  }

  /** The invariant every dict keeps: no key twice. */
  predicate Valid<K(==), V>(d: Dict<K, V>) {
    Distinct(Keys(d))
  }

  /** The position of `k`, if it is a key. */
  function IndexOf<K(==), V>(d: Dict<K, V>, k: K): (r: Option<nat>)
    ensures r.None? <==> k !in Keys(d)
    ensures r.Some? ==> r.value < |d| && d[r.value].0 == k
  {
    if |d| == 0 then None
    else if d[0].0 == k then Some(0)
    else
      match IndexOf(d[1..], k)
      case None => None
      case Some(i) => Some(i + 1)
  }

  /** `d.get(k)`. */
  function Get<K(==), V>(d: Dict<K, V>, k: K): (r: Option<V>)
    ensures r.None? <==> k !in Keys(d)
    ensures r.Some? ==> exists i :: 0 <= i < |d| && d[i] == (k, r.value)
  {
    match IndexOf(d, k)
    case None => None
    case Some(i) => Some(d[i].1)
  }

  /** `d.get(k, default)`. */
  function GetOr<K(==), V>(d: Dict<K, V>, k: K, default: V): V {
    match Get(d, k)
    case None => default
    case Some(v) => v
  }

  /** `d[k] = v`. */
  function Put<K(==,!new), V>(d: Dict<K, V>, k: K, v: V): (r: Dict<K, V>)
    requires Valid(d)
    ensures Valid(r)
    ensures Get(r, k) == Some(v)
    ensures forall k' :: k' != k ==> Get(r, k') == Get(d, k')
    ensures Keys(r) == if k in Keys(d) then Keys(d) else Keys(d) + [k]
  {
    match IndexOf(d, k)
    case None =>
      var r := d + [(k, v)];
      assert Keys(r) == Keys(d) + [k];
      assert IndexOf(r, k) == Some(|d|) by { IndexOfUnique(r, k, |d|); }
      forall k' | k' != k ensures Get(r, k') == Get(d, k') {
        if k' in Keys(d) {
          var i := IndexOf(d, k').value;
          IndexOfUnique(r, k', i);
        }
      }
      r
    case Some(i) =>
      var r := d[i := (k, v)];
      assert Keys(r) == Keys(d);
      IndexOfUnique(r, k, i);
      forall k' | k' != k ensures Get(r, k') == Get(d, k') {
        if k' in Keys(d) {
          var j := IndexOf(d, k').value;
          IndexOfUnique(r, k', j);
        }
      }
      r
  }

  lemma {:induction false} IndexOfUnique<K, V>(d: Dict<K, V>, k: K, i: nat)
    requires Valid(d) && i < |d| && d[i].0 == k
    ensures IndexOf(d, k) == Some(i)
  {
    var ks := Keys(d);
    assert ks[i] == k;
    var j := IndexOf(d, k).value;
    DistinctAt(ks, j, i);
  }

  /** In a sequence without repeats, equal entries sit at the same index. */
  lemma {:induction false} DistinctAt<K>(ks: seq<K>, a: nat, b: nat)
    requires Distinct(ks) && a < |ks| && b < |ks| && ks[a] == ks[b]
    ensures a == b
  {
  }

  /** `d.setdefault(k, []).append(x)` on a dict of lists. */
  function Append<K(==,!new), X>(d: Dict<K, seq<X>>, k: K, x: X): (r: Dict<K, seq<X>>)
    requires Valid(d)
    ensures Valid(r)
    ensures Get(r, k) == Some(GetOr(d, k, []) + [x])
    ensures forall k' :: k' != k ==> Get(r, k') == Get(d, k')
    ensures Keys(r) == if k in Keys(d) then Keys(d) else Keys(d) + [k]
  {
    Put(d, k, GetOr(d, k, []) + [x])
  }

  /** `{k: v for k, v in entries}`: the entries assigned one after another. */
  function FromPairs<K(==,!new), V>(entries: seq<(K, V)>): (d: Dict<K, V>)
    ensures Valid(d)
    ensures |d| <= |entries|
  {
    if |entries| == 0 then []
    else
      var last := entries[|entries| - 1];
      Put(FromPairs(entries[..|entries| - 1]), last.0, last.1)
  }

  /** Reference meaning of a repeated key: the value of its LAST entry. */
  function LastValue<K(==), V>(entries: seq<(K, V)>, k: K): Option<V> {
    if |entries| == 0 then None
    else if entries[|entries| - 1].0 == k then Some(entries[|entries| - 1].1)
    else LastValue(entries[..|entries| - 1], k)
  }

  /** The value found for a key is the value of one of its entries. */
  lemma {:induction false} LastValueIn<K, V>(entries: seq<(K, V)>, k: K)
    ensures LastValue(entries, k).Some? ==> (k, LastValue(entries, k).value) in entries
    ensures LastValue(entries, k).Some? <==> k in Keys(entries)
  {
    LastValuePair(entries, k);
    LastValueKey(entries, k);
  }

  lemma {:induction false} LastValuePair<K, V>(entries: seq<(K, V)>, k: K)
    ensures LastValue(entries, k).Some? ==> (k, LastValue(entries, k).value) in entries
  {
    if |entries| > 0 {
      var init := entries[..|entries| - 1];
      LastValuePair(init, k);
      assert entries == init + [entries[|entries| - 1]];
    }
  }

  lemma {:induction false} LastValueKey<K, V>(entries: seq<(K, V)>, k: K)
    ensures LastValue(entries, k).Some? <==> k in Keys(entries)
  {
    if |entries| > 0 {
      var init := entries[..|entries| - 1];
      LastValueKey(init, k);
      assert Keys(entries) == Keys(init) + [entries[|entries| - 1].0];
    }
  }

  /** Reference meaning of the key order: each key where it first appears. */
  function FirstOccurrences<K(==)>(ks: seq<K>): seq<K> {
    if |ks| == 0 then []
    else
      var earlier := FirstOccurrences(ks[..|ks| - 1]);
      if ks[|ks| - 1] in earlier then earlier else earlier + [ks[|ks| - 1]]
  }

  lemma {:induction false} FirstOccurrencesMembers<K>(ks: seq<K>)
    ensures forall k :: k in FirstOccurrences(ks) <==> k in ks
  {
    if |ks| > 0 {
      FirstOccurrencesMembers(ks[..|ks| - 1]);
      assert ks == ks[..|ks| - 1] + [ks[|ks| - 1]];
    }
  }

  /** A later entry overwrites an earlier one with the same key, but the key
      keeps the place where it first appeared. */
  lemma {:induction false} FromPairsMeaning<K(!new), V>(entries: seq<(K, V)>)
    ensures forall k :: Get(FromPairs(entries), k) == LastValue(entries, k)
    ensures Keys(FromPairs(entries)) == FirstOccurrences(Keys(entries))
  {
    FromPairsValues(entries);
    FromPairsOrder(entries);
  }

  lemma {:induction false} FromPairsValues<K(!new), V>(entries: seq<(K, V)>)
    ensures forall k :: Get(FromPairs(entries), k) == LastValue(entries, k)
  {
    if |entries| > 0 {
      FromPairsValues(entries[..|entries| - 1]);
    }
  }

  lemma {:induction false} FromPairsOrder<K(!new), V>(entries: seq<(K, V)>)
    ensures Keys(FromPairs(entries)) == FirstOccurrences(Keys(entries))
  {
    if |entries| > 0 {
      var init := entries[..|entries| - 1];
      FromPairsOrder(init);
      assert Keys(entries)[..|entries| - 1] == Keys(init);
      FirstOccurrencesMembers(Keys(init));
    }
  }
}
