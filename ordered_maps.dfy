/**
  Insertion-ordered maps, as `java.util.LinkedHashMap` behaves: the entries are
  kept in the order their keys were first put, and putting a key that is
  already present replaces its value in place.
 */
module OrderedMaps {
  import opened Wrappers

  /** The entries of a map in iteration order. Also used for plain lists of pairs. */
  type OMap<K, V> = seq<(K, V)>

  function Keys<K, V>(m: OMap<K, V>): seq<K>
  {
    seq(|m|, i requires 0 <= i < |m| => m[i].0)
  }

  function Values<K, V>(m: OMap<K, V>): seq<V>
  {
    seq(|m|, i requires 0 <= i < |m| => m[i].1)
  }

  lemma ValuesCons<K, V>(m: OMap<K, V>)
    requires m != []
    ensures Values(m) == [m[0].1] + Values(m[1..])
    ensures multiset(Values(m)) == multiset{m[0].1} + multiset(Values(m[1..]))
  {
    assert Values(m) == [m[0].1] + Values(m[1..]);
  }

  ghost predicate DistinctKeys<K, V>(m: OMap<K, V>)
  {
    forall i, j :: 0 <= i < j < |m| ==> m[i].0 != m[j].0
  }

  /** Position of the first entry with key `k`, or -1 when there is none. */
  function IndexOf<K(==,!new), V>(m: OMap<K, V>, k: K): (i: int)
    ensures -1 <= i < |m|
    ensures 0 <= i ==> m[i].0 == k && forall j :: 0 <= j < i ==> m[j].0 != k
    ensures i < 0 ==> forall j :: 0 <= j < |m| ==> m[j].0 != k
  {
    if |m| == 0 then -1
    else if m[0].0 == k then 0
    else
      var r := IndexOf(m[1..], k);
      if r < 0 then -1 else r + 1
  }

  /** Position of the last entry with key `k`, or -1 when there is none. */
  function LastIndex<K(==,!new), V>(m: OMap<K, V>, k: K): (i: int)
    ensures -1 <= i < |m|
    ensures 0 <= i ==> m[i].0 == k && forall j :: i < j < |m| ==> m[j].0 != k
    ensures i < 0 ==> forall j :: 0 <= j < |m| ==> m[j].0 != k
  {
    if |m| == 0 then -1
    else if m[|m| - 1].0 == k then |m| - 1
    else LastIndex(m[..|m| - 1], k)
  }

  /** `map.get(k)`: the value of the entry with key `k`. */
  function Get<K(==,!new), V>(m: OMap<K, V>, k: K): Option<V>
  {
    var i := IndexOf(m, k);
    if i < 0 then None else Some(m[i].1)
  }

  /** `map.put(k, v)`: overwrite in place when `k` is present, append otherwise. */
  function Put<K(==,!new), V>(m: OMap<K, V>, k: K, v: V): (r: OMap<K, V>)
    ensures Get(r, k) == Some(v)
    ensures forall k' :: k' != k ==> Get(r, k') == Get(m, k')
    ensures Keys(r) == if IndexOf(m, k) < 0 then Keys(m) + [k] else Keys(m)
    ensures forall e :: e in r ==> e in m || e == (k, v)
    ensures DistinctKeys(m) ==> DistinctKeys(r)
  {
    var i := IndexOf(m, k);
    if i < 0 then (AppendFacts(m, k, v); m + [(k, v)])
    else (UpdateFacts(m, k, v, i); m[i := (k, v)])
  }

  lemma IndexOfIs<K(!new), V>(m: OMap<K, V>, k: K, i: nat)
    requires i < |m| && m[i].0 == k
    requires forall j :: 0 <= j < i ==> m[j].0 != k
    ensures IndexOf(m, k) == i
  {
  }

  lemma AppendFacts<K(!new), V>(m: OMap<K, V>, k: K, v: V)
    requires IndexOf(m, k) < 0
    ensures var r := m + [(k, v)];
            && Get(r, k) == Some(v)
            && (forall k' :: k' != k ==> Get(r, k') == Get(m, k'))
            && (DistinctKeys(m) ==> DistinctKeys(r))
  {
    var r := m + [(k, v)];
    IndexOfIs(r, k, |m|);
    forall k' | k' != k ensures Get(r, k') == Get(m, k') {
      var a := IndexOf(m, k');
      if a >= 0 {
        IndexOfIs(r, k', a);
      } else {
        assert forall j :: 0 <= j < |r| ==> r[j].0 != k';
      }
    }
  }

  lemma UpdateFacts<K(!new), V>(m: OMap<K, V>, k: K, v: V, i: int)
    requires i == IndexOf(m, k) && i >= 0
    ensures var r := m[i := (k, v)];
            && Get(r, k) == Some(v)
            && (forall k' :: k' != k ==> Get(r, k') == Get(m, k'))
            && (DistinctKeys(m) ==> DistinctKeys(r))
  {
    var r := m[i := (k, v)];
    IndexOfIs(r, k, i);
    forall k' | k' != k ensures Get(r, k') == Get(m, k') {
      var a := IndexOf(m, k');
      if a >= 0 {
        IndexOfIs(r, k', a);
      } else {
        assert forall j :: 0 <= j < |r| ==> r[j].0 != k';
      }
    }
  }

  /** `k` is a key of `m` exactly when it has an index. */
  lemma InKeys<K(!new), V>(m: OMap<K, V>, k: K)
    ensures k in Keys(m) <==> IndexOf(m, k) >= 0
  {
    if IndexOf(m, k) >= 0 {
      assert Keys(m)[IndexOf(m, k)] == k;
    }
  }

  /** `put` of every pair of `ps`, in order. */
  function PutAll<K(==,!new), V>(m: OMap<K, V>, ps: OMap<K, V>): OMap<K, V>
    decreases |ps|
  {
    if |ps| == 0 then m
    else
      var n := |ps| - 1;
      Put(PutAll(m, ps[..n]), ps[n].0, ps[n].1)
  }

  /** The last pair is put last. */
  lemma PutAllLast<K(!new), V>(m: OMap<K, V>, ps: OMap<K, V>)
    requires ps != []
    ensures PutAll(m, ps) == Put(PutAll(m, ps[..|ps| - 1]), ps[|ps| - 1].0, ps[|ps| - 1].1)
  {
  }

  /** Putting the pairs one after another from the front. */
  lemma {:induction false} PutAllCons<K(!new), V>(m: OMap<K, V>, p: (K, V), ps: OMap<K, V>)
    ensures PutAll(m, [p] + ps) == PutAll(Put(m, p.0, p.1), ps)
    decreases |ps|
  {
    var qs := [p] + ps;
    if |ps| > 0 {
      var n := |ps| - 1;
      assert qs[..n + 1] == [p] + ps[..n];
      assert qs[n + 1] == ps[n];
      PutAllCons(m, p, ps[..n]);
      calc {
        PutAll(m, qs);
        Put(PutAll(m, qs[..n + 1]), ps[n].0, ps[n].1);
        Put(PutAll(Put(m, p.0, p.1), ps[..n]), ps[n].0, ps[n].1);
        PutAll(Put(m, p.0, p.1), ps);
      }
    } else {
      assert qs[..0] == [];
    }
  }

  /** For each key the last pair of `ps` that names it wins; other keys keep their value. */
  lemma {:induction false} PutAllGet<K(!new), V>(m: OMap<K, V>, ps: OMap<K, V>, k: K)
    ensures Get(PutAll(m, ps), k) ==
            if LastIndex(ps, k) < 0 then Get(m, k) else Some(ps[LastIndex(ps, k)].1)
    decreases |ps|
  {
    if |ps| > 0 {
      var n := |ps| - 1;
      PutAllGet(m, ps[..n], k);
    }
  }

  /** The keys after `PutAll` are the old keys and the keys of the pairs, nothing else. */
  lemma {:induction false} PutAllKeys<K(!new), V>(m: OMap<K, V>, ps: OMap<K, V>, k: K)
    ensures k in Keys(PutAll(m, ps)) <==> k in Keys(m) || k in Keys(ps)
    decreases |ps|
  {
    if |ps| > 0 {
      var n := |ps| - 1;
      PutAllKeys(m, ps[..n], k);
      assert Keys(ps) == Keys(ps[..n]) + [ps[n].0];
      var r0 := PutAll(m, ps[..n]);
      if IndexOf(r0, ps[n].0) >= 0 {
        assert ps[n].0 in Keys(r0) by { assert Keys(r0)[IndexOf(r0, ps[n].0)] == ps[n].0; }
      } else {
        assert k in Keys(r0) ==> IndexOf(r0, k) >= 0;
      }
    }
  }

  /** Every entry after `PutAll` is an old entry or one of the pairs. */
  lemma {:induction false} PutAllEntries<K(!new), V>(m: OMap<K, V>, ps: OMap<K, V>, e: (K, V))
    requires e in PutAll(m, ps)
    ensures e in m || e in ps
    decreases |ps|
  {
    if |ps| > 0 {
      var n := |ps| - 1;
      if e != ps[n] {
        PutAllEntries(m, ps[..n], e);
      }
    }
  }

  /** `PutAll` keeps keys distinct. */
  lemma {:induction false} PutAllDistinct<K(!new), V>(m: OMap<K, V>, ps: OMap<K, V>)
    requires DistinctKeys(m)
    ensures DistinctKeys(PutAll(m, ps))
    decreases |ps|
  {
    if |ps| > 0 {
      PutAllDistinct(m, ps[..|ps| - 1]);
    }
  }

  lemma IndexOfExtend<K(!new), V>(ps: OMap<K, V>, n: nat, k: K)
    requires n < |ps|
    ensures IndexOf(ps[..n], k) >= 0 ==> IndexOf(ps, k) == IndexOf(ps[..n], k)
    ensures IndexOf(ps[..n], k) < 0 && ps[n].0 == k ==> IndexOf(ps, k) == n
  {
    var a := IndexOf(ps[..n], k);
    if a >= 0 {
      IndexOfIs(ps, k, a);
    } else if ps[n].0 == k {
      assert forall j :: 0 <= j < n ==> ps[..n][j] == ps[j];
      IndexOfIs(ps, k, n);
    }
  }

  /** `put` keeps the keys in place and appends a key that is new. */
  lemma PutShape<K(!new), V>(m: OMap<K, V>, k: K, v: V)
    ensures var r := Put(m, k, v);
            && |r| == (if IndexOf(m, k) < 0 then |m| + 1 else |m|)
            && forall i | 0 <= i < |r| :: r[i].0 == if i < |m| then m[i].0 else k
  {
    var r := Put(m, k, v);
    assert |Keys(r)| == |r| && |Keys(m)| == |m|;
    forall i | 0 <= i < |r| ensures r[i].0 == if i < |m| then m[i].0 else k {
      assert Keys(r)[i] == r[i].0;
      if i < |m| { assert Keys(m)[i] == m[i].0; }
    }
  }

  /** The keys of `r` appear in the order of their first occurrence in `ps`. */
  ghost predicate FirstOccurrenceOrder<K(!new), V>(ps: OMap<K, V>, r: OMap<K, V>)
  {
    forall i, j :: 0 <= i < j < |r| ==> 0 <= IndexOf(ps, r[i].0) < IndexOf(ps, r[j].0)
  }

  /**
    The keys built from a list of pairs appear in the order of their first
    occurrence in the list.
   */
  lemma {:induction false} FromPairsOrder<K(!new), V>(ps: OMap<K, V>)
    ensures FirstOccurrenceOrder(ps, PutAll([], ps))
    decreases |ps|
  {
    if |ps| > 0 {
      var n := |ps| - 1;
      FromPairsOrder(ps[..n]);
      FromPairsStep(ps, n, PutAll([], ps[..n]));
    }
  }

  /** Putting the last pair keeps the order the prefix built. */
  lemma FromPairsStep<K(!new), V>(ps: OMap<K, V>, n: nat, r0: OMap<K, V>)
    requires n + 1 == |ps| && r0 == PutAll([], ps[..n]) && FirstOccurrenceOrder(ps[..n], r0)
    ensures FirstOccurrenceOrder(ps, PutAll([], ps))
  {
    var k := ps[n].0;
    var r := PutAll([], ps);
    PrefixIndices(ps, n, r0);
    PutShape(r0, k, ps[n].1);
    if IndexOf(r0, k) < 0 {
      NewKeyIndex(ps, n, r0);
    }
    PutAllLast([], ps);
    OrderExtend(ps, n, r0, r);
  }

  /** One more pair keeps the order: a new key comes last and is first seen at the end. */
  lemma OrderExtend<K(!new), V>(ps: OMap<K, V>, n: nat, r0: OMap<K, V>, r: OMap<K, V>)
    requires n < |ps| && FirstOccurrenceOrder(ps[..n], r0)
    requires forall i | 0 <= i < |r0| :: 0 <= IndexOf(ps, r0[i].0) == IndexOf(ps[..n], r0[i].0) < n
    requires |r0| <= |r| <= |r0| + 1
    requires forall i | 0 <= i < |r| :: r[i].0 == if i < |r0| then r0[i].0 else ps[n].0
    requires |r| > |r0| ==> IndexOf(ps, ps[n].0) == n
    ensures FirstOccurrenceOrder(ps, r)
  {
    forall i, j | 0 <= i < j < |r|
      ensures 0 <= IndexOf(ps, r[i].0) < IndexOf(ps, r[j].0)
    {
      assert r[i].0 == r0[i].0;
      if j < |r0| {
        assert r[j].0 == r0[j].0;
        assert IndexOf(ps[..n], r0[i].0) < IndexOf(ps[..n], r0[j].0);
      }
    }
  }

  /** A key that the prefix does not build is first seen at the end. */
  lemma NewKeyIndex<K(!new), V>(ps: OMap<K, V>, n: nat, r0: OMap<K, V>)
    requires n < |ps| && r0 == PutAll([], ps[..n]) && IndexOf(r0, ps[n].0) < 0
    ensures IndexOf(ps, ps[n].0) == n
  {
    var k := ps[n].0;
    InKeys(r0, k);
    PutAllKeys([], ps[..n], k);
    InKeys(ps[..n], k);
    IndexOfExtend(ps, n, k);
  }

  /** The keys built from a prefix are found at the same place in the whole list. */
  lemma PrefixIndices<K(!new), V>(ps: OMap<K, V>, n: nat, r0: OMap<K, V>)
    requires n < |ps| && r0 == PutAll([], ps[..n])
    ensures forall i | 0 <= i < |r0| :: 0 <= IndexOf(ps, r0[i].0) == IndexOf(ps[..n], r0[i].0) < n
  {
    forall i | 0 <= i < |r0|
      ensures 0 <= IndexOf(ps, r0[i].0) == IndexOf(ps[..n], r0[i].0) < n
    {
      var key := r0[i].0;
      assert Keys(r0)[i] == key;
      PutAllKeys([], ps[..n], key);
      InKeys(ps[..n], key);
      IndexOfExtend(ps, n, key);
    }
  }
}
