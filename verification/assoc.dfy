/** Insertion-ordered association lists with string keys.

    A plain JavaScript object used as a dictionary, whose keys are never
    array-index strings, enumerates its entries (`Object.entries`,
    `Object.keys`, `Object.values`) in the order the keys were first
    assigned. Assigning to an existing key keeps its position. */
module Assoc {
  import opened Wrappers

  type Assoc<V> = seq<(string, V)>

  /** The keys, in enumeration order. */
  function Keys<V>(m: Assoc<V>): (ks: seq<string>)
    ensures |ks| == |m|
    ensures forall i :: 0 <= i < |m| ==> ks[i] == m[i].0
  {
    if m == [] then [] else [m[0].0] + Keys(m[1..])
  }

  /** No key occurs twice, as in an object. */
  predicate DistinctKeys<V>(m: Assoc<V>) {
    forall i, j :: 0 <= i < j < |m| ==> m[i].0 != m[j].0
  }

  /** Position of the entry for `k`, if there is one. */
  function IndexOf<V>(m: Assoc<V>, k: string): (r: Option<nat>)
    ensures r.Some? ==> r.value < |m| && m[r.value].0 == k
    ensures r.Some? ==> forall i :: 0 <= i < r.value ==> m[i].0 != k
    ensures r.None? <==> k !in Keys(m)
  {
    if m == [] then None
    else if m[0].0 == k then Some(0)
    else match IndexOf(m[1..], k)
      case None => None
      case Some(j) => Some(j + 1)
  }

  /** `obj[k]`: the value stored under `k`, or None (`undefined`). */
  function Get<V>(m: Assoc<V>, k: string): Option<V> {
    match IndexOf(m, k)
    case Some(i) => Some(m[i].1)
    case None => None
  }

  /** `obj[k] = v`: overwrites the entry in place when `k` is present,
      otherwise appends a new entry at the end. */
  function Put<V>(m: Assoc<V>, k: string, v: V): (r: Assoc<V>)
    ensures Get(r, k) == Some(v)
    ensures forall k' :: k' != k ==> Get(r, k') == Get(m, k')
    ensures Keys(r) == Seen(Keys(m), k)
    ensures DistinctKeys(m) ==> DistinctKeys(r)
  {
    match IndexOf(m, k)
    case Some(i) =>
      var r := m[i := (k, v)];
      IndexUpdate(m, i, k, v);
      assert Seen(Keys(m), k) == Keys(m);
      r
    case None =>
      var r := m + [(k, v)];
      IndexAppend(m, k, v);
      assert Seen(Keys(m), k) == Keys(m) + [k];
      r
  }

  lemma {:induction false} IndexUpdate<V>(m: Assoc<V>, i: nat, k: string, v: V)
    requires IndexOf(m, k) == Some(i)
    ensures Keys(m[i := (k, v)]) == Keys(m)
    ensures IndexOf(m[i := (k, v)], k) == Some(i)
    ensures forall k' :: k' != k ==> IndexOf(m[i := (k, v)], k') == IndexOf(m, k')
  {
    var r := m[i := (k, v)];
    assert Keys(r) == Keys(m);
    forall k' | k' != k
      ensures IndexOf(r, k') == IndexOf(m, k')
    {
      IndexOfDependsOnKeys(r, m, k');
    }
    IndexOfDependsOnKeys(r, m, k);
  }

  lemma {:induction false} IndexAppend<V>(m: Assoc<V>, k: string, v: V)
    requires IndexOf(m, k).None?
    ensures Keys(m + [(k, v)]) == Keys(m) + [k]
    ensures IndexOf(m + [(k, v)], k) == Some(|m|)
    ensures forall k' :: k' != k ==> IndexOf(m + [(k, v)], k') == IndexOf(m, k')
  {
    var r := m + [(k, v)];
    assert Keys(r) == Keys(m) + [k];
    IndexOfAppend(m, k, v, k);
    forall k' | k' != k
      ensures IndexOf(r, k') == IndexOf(m, k')
    {
      IndexOfAppend(m, k, v, k');
    }
  }

  /** Only the keys matter to IndexOf. */
  lemma {:induction false} IndexOfDependsOnKeys<V>(a: Assoc<V>, b: Assoc<V>, k: string)
    requires Keys(a) == Keys(b)
    ensures IndexOf(a, k) == IndexOf(b, k)
    decreases |a|
  {
    if a != [] {
      assert a[0].0 == Keys(a)[0] == Keys(b)[0] == b[0].0;
      assert Keys(a[1..]) == Keys(a)[1..] == Keys(b)[1..] == Keys(b[1..]);
      IndexOfDependsOnKeys(a[1..], b[1..], k);
    }
  }

  lemma {:induction false} IndexOfAppend<V>(m: Assoc<V>, k: string, v: V, k': string)
    requires IndexOf(m, k).None?
    ensures IndexOf(m + [(k, v)], k') == if k' == k then Some(|m|) else IndexOf(m, k')
    decreases |m|
  {
    if m != [] {
      assert (m + [(k, v)])[1..] == m[1..] + [(k, v)];
      IndexOfAppend(m[1..], k, v, k');
    }
  }

  /** A counter read with `(obj[k] || 0)`. */
  function Tally(m: Assoc<nat>, k: string): nat {
    ValueOr(Get(m, k), 0)
  }

  /** The sum of `weight` over all values. */
  function SumOf<V>(m: Assoc<V>, weight: V -> nat): nat {
    if m == [] then 0 else weight(m[0].1) + SumOf(m[1..], weight)
  }

  /** The weight of the value stored under `k`, 0 when there is none. */
  function WeightAt<V>(m: Assoc<V>, k: string, weight: V -> nat): nat {
    match Get(m, k)
    case Some(v) => weight(v)
    case None => 0
  }

  function Identity(n: nat): nat { n }

  /** The sum of all counters: what `Object.values(m)` adds up to. */
  function Total(m: Assoc<nat>): nat {
    SumOf(m, Identity)
  }

  /** Storing `v` under `k` replaces the weight of the old value, if any, by
      the weight of `v`. */
  lemma PutSum<V>(m: Assoc<V>, k: string, v: V, weight: V -> nat)
    ensures SumOf(Put(m, k, v), weight) + WeightAt(m, k, weight) == SumOf(m, weight) + weight(v)
  {
    match IndexOf(m, k)
    case Some(i) =>
      assert Put(m, k, v) == m[i := (k, v)];
      SumUpdate(m, i, (k, v), weight);
    case None =>
      assert Put(m, k, v) == m + [(k, v)];
      SumAppend(m, (k, v), weight);
  }

  /** `obj[k] = (obj[k] || 0) + 1`: exactly one counter grows by one. */
  function Bump(m: Assoc<nat>, k: string): (r: Assoc<nat>)
    ensures Tally(r, k) == Tally(m, k) + 1
    ensures forall k' :: k' != k ==> Tally(r, k') == Tally(m, k')
    ensures Total(r) == Total(m) + 1
    ensures Keys(r) == Seen(Keys(m), k)
    ensures DistinctKeys(m) ==> DistinctKeys(r)
  {
    var v := Tally(m, k) + 1;
    BumpOthers(m, k, v);
    BumpTotal(m, k, v);
    Put(m, k, v)
  }

  lemma BumpOthers(m: Assoc<nat>, k: string, v: nat)
    ensures forall k' :: k' != k ==> Tally(Put(m, k, v), k') == Tally(m, k')
  {
    forall k' | k' != k
      ensures Tally(Put(m, k, v), k') == Tally(m, k')
    {
      assert Get(Put(m, k, v), k') == Get(m, k');
    }
  }

  lemma BumpTotal(m: Assoc<nat>, k: string, v: nat)
    requires v == Tally(m, k) + 1
    ensures Total(Put(m, k, v)) == Total(m) + 1
  {
    PutSum(m, k, v, Identity);
    assert WeightAt(m, k, Identity) == Tally(m, k);
  }

  lemma {:induction false} SumUpdate<V>(m: Assoc<V>, i: nat, e: (string, V), weight: V -> nat)
    requires i < |m|
    ensures SumOf(m[i := e], weight) + weight(m[i].1) == SumOf(m, weight) + weight(e.1)
    decreases |m|
  {
    if i > 0 {
      assert m[i := e][1..] == m[1..][i - 1 := e];
      SumUpdate(m[1..], i - 1, e, weight);
    }
  }

  lemma {:induction false} SumAppend<V>(m: Assoc<V>, e: (string, V), weight: V -> nat)
    ensures SumOf(m + [e], weight) == SumOf(m, weight) + weight(e.1)
    decreases |m|
  {
    if m != [] {
      assert (m + [e])[1..] == m[1..] + [e];
      SumAppend(m[1..], e, weight);
    }
  }

  /** In a list without repeated keys, each entry is what its key looks up. */
  lemma {:induction false} GetEntry<V>(m: Assoc<V>, i: nat)
    requires DistinctKeys(m) && i < |m|
    ensures Get(m, m[i].0) == Some(m[i].1)
  {
    assert Keys(m)[i] == m[i].0;
    assert IndexOf(m, m[i].0).Some?;
    assert IndexOf(m, m[i].0) == Some(i);
  }

  /** The key order after assigning `k`: unchanged when `k` is already a
      key, otherwise `k` joins at the end. */
  function Seen(ks: seq<string>, k: string): seq<string> {
    if k in ks then ks else ks + [k]
  }

  /** The position of the first occurrence of `k` in `ks`. */
  function FirstIndex(ks: seq<string>, k: string): (i: nat)
    requires k in ks
    ensures i < |ks| && ks[i] == k
    ensures forall j :: 0 <= j < i ==> ks[j] != k
  {
    if ks[0] == k then 0 else 1 + FirstIndex(ks[1..], k)
  }

  /** The distinct elements of `ks` in order of first occurrence: the key order
      of an object built by assigning the keys `ks` one after another. */
  function FirstSeen(ks: seq<string>): (r: seq<string>)
    ensures forall k :: k in r <==> k in ks
    ensures forall i, j :: 0 <= i < j < |r| ==> r[i] != r[j]
    ensures forall i, j :: 0 <= i < j < |r| ==> FirstIndex(ks, r[i]) < FirstIndex(ks, r[j])
  {
    if ks == [] then []
    else
      var p, x := ks[..|ks| - 1], ks[|ks| - 1];
      assert ks == p + [x];
      var rp := FirstSeen(p);
      FirstSeenStep(p, x, rp);
      Seen(rp, x)
  }

  /** Appending `x` to the keys keeps the first-occurrence order of the keys
      seen so far and, when `x` is new, puts it last. */
  lemma FirstSeenStep(p: seq<string>, x: string, rp: seq<string>)
    requires forall k :: k in rp <==> k in p
    requires forall i, j :: 0 <= i < j < |rp| ==> FirstIndex(p, rp[i]) < FirstIndex(p, rp[j])
    ensures forall i, j :: 0 <= i < j < |Seen(rp, x)| ==>
      FirstIndex(p + [x], Seen(rp, x)[i]) < FirstIndex(p + [x], Seen(rp, x)[j])
  {
    var r := Seen(rp, x);
    forall i | 0 <= i < |rp|
      ensures FirstIndex(p + [x], rp[i]) == FirstIndex(p, rp[i])
    {
      assert rp[i] in p;
      FirstIndexAppend(p, x, rp[i]);
    }
    if x !in p {
      FirstIndexNewLast(p, x);
      assert forall i :: 0 <= i < |rp| ==> FirstIndex(p, rp[i]) < |p|;
    }
  }

  lemma FirstIndexAppend(ks: seq<string>, x: string, k: string)
    requires k in ks
    ensures FirstIndex(ks + [x], k) == FirstIndex(ks, k)
  {
    var i, j := FirstIndex(ks + [x], k), FirstIndex(ks, k);
    assert (ks + [x])[j] == k;
  }

  lemma FirstIndexNewLast(ks: seq<string>, x: string)
    requires x !in ks
    ensures FirstIndex(ks + [x], x) == |ks|
  {
    assert (ks + [x])[|ks|] == x;
  }
}
