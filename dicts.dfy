/** Python's `dict`: a finite map whose keys remember insertion order.
    Assigning to an existing key keeps its position; a new key goes last;
    `del` drops the key from the order. */
module Dicts {
  import opened Seqs

  datatype Dict<K(==,!new), V> = Dict(keys: seq<K>, items: map<K, V>) {

    /** The order lists every key of the map exactly once. */
    ghost predicate Valid()
    {
      Distinct(keys) && forall k :: k in items <==> k in keys
    }

    /** `d[k] = v`. */
    function Put(k: K, v: V): (d: Dict<K, V>)
      requires Valid()
      ensures d.Valid()
      ensures d.items == items[k := v]
      ensures d.keys == if k in items then keys else keys + [k]
    {
      if k in items then Dict(keys, items[k := v]) else Dict(keys + [k], items[k := v])
    }

    /** `del d[k]` for a key that is present. */
    function Remove(k: K): (d: Dict<K, V>)
      requires Valid()
      ensures d.Valid()
      ensures d.items == items - {k}
      ensures d.keys == Without(keys, k)
    {
      Dict(Without(keys, k), items - {k})
    }
  }

  function Empty<K(==,!new), V>(): (d: Dict<K, V>)
    ensures d.Valid()
  {
    Dict([], map[])
  }

  /** Assigns the pairs of `ps` to `d` one after the other. */
  function PutAll<K(==,!new), V>(d: Dict<K, V>, ps: seq<(K, V)>): (r: Dict<K, V>)
    requires d.Valid()
    ensures r.Valid()
    decreases |ps|
  {
    if ps == [] then d
    else PutAll(d, ps[..|ps| - 1]).Put(ps[|ps| - 1].0, ps[|ps| - 1].1)
  }

  /** The keys of a list of pairs, in order. */
  function Firsts<K, V>(ps: seq<(K, V)>): (ks: seq<K>)
    ensures |ks| == |ps| && forall i :: 0 <= i < |ps| ==> ks[i] == ps[i].0
  {
    seq(|ps|, i requires 0 <= i < |ps| => ps[i].0)
  }

  lemma {:induction false} PutAllAppend<K(!new), V>(d: Dict<K, V>, ps: seq<(K, V)>, qs: seq<(K, V)>)
    requires d.Valid()
    ensures PutAll(d, ps + qs) == PutAll(PutAll(d, ps), qs)
    decreases |qs|
  {
    if qs == [] {
      assert ps + qs == ps;
    } else {
      assert (ps + qs)[..|ps + qs| - 1] == ps + qs[..|qs| - 1];
      PutAllAppend(d, ps, qs[..|qs| - 1]);
    }
  }

  /** A key ends up present iff it was present before or some pair assigns it. */
  lemma {:induction false} PutAllKeys<K(!new), V>(d: Dict<K, V>, ps: seq<(K, V)>, k: K)
    requires d.Valid()
    ensures k in PutAll(d, ps).items <==> k in d.items || k in Firsts(ps)
    decreases |ps|
  {
    if ps != [] {
      var p := ps[..|ps| - 1];
      PutAllKeys(d, p, k);
      assert Firsts(ps) == Firsts(p) + [ps[|ps| - 1].0];
    }
  }

  /** Last write wins: an assigned key holds the value of the last pair assigning it. */
  lemma {:induction false} PutAllLastWins<K(!new), V>(d: Dict<K, V>, ps: seq<(K, V)>, k: K)
    requires d.Valid()
    requires k in Firsts(ps)
    ensures k in PutAll(d, ps).items
    ensures exists i :: 0 <= i < |ps| && LastAssigns(ps, k, i) && PutAll(d, ps).items[k] == ps[i].1
    decreases |ps|
  {
    PutAllKeys(d, ps, k);
    var n := |ps| - 1;
    if ps[n].0 == k {
      assert LastAssigns(ps, k, n);
    } else {
      var p := ps[..n];
      assert Firsts(ps) == Firsts(p) + [ps[n].0];
      PutAllLastWins(d, p, k);
      var i :| 0 <= i < |p| && LastAssigns(p, k, i) && PutAll(d, p).items[k] == p[i].1;
      assert LastAssigns(ps, k, i);
    }
  }

  /** Pair `i` is the last pair of `ps` that assigns `k`. */
  ghost predicate LastAssigns<K, V>(ps: seq<(K, V)>, k: K, i: nat)
  {
    i < |ps| && ps[i].0 == k && forall j :: i < j < |ps| ==> ps[j].0 != k
  }

  /** A key no pair assigns keeps its value. */
  lemma {:induction false} PutAllUntouched<K(!new), V>(d: Dict<K, V>, ps: seq<(K, V)>, k: K)
    requires d.Valid() && k in d.items && k !in Firsts(ps)
    ensures k in PutAll(d, ps).items && PutAll(d, ps).items[k] == d.items[k]
    decreases |ps|
  {
    if ps != [] {
      var p := ps[..|ps| - 1];
      assert Firsts(ps) == Firsts(p) + [ps[|ps| - 1].0];
      PutAllUntouched(d, p, k);
    }
  }

  /** Built from empty, the key order is the order of first assignment. */
  lemma {:induction false} PutAllOrder<K(!new), V>(ps: seq<(K, V)>)
    ensures PutAll(Empty(), ps).keys == Dedup(Firsts(ps))
    decreases |ps|
  {
    if ps != [] {
      var p := ps[..|ps| - 1];
      PutAllOrder(p);
      assert Firsts(ps)[..|ps| - 1] == Firsts(p);
    }
  }
}
