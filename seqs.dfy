/** Sequence helpers: duplicate-freedom, order-preserving de-duplication,
    truncation and removal of one value. */
module Seqs {

  predicate Distinct<T(==)>(s: seq<T>)
  {
    forall i, j :: 0 <= i < j < |s| ==> s[i] != s[j]
  }

  /** The elements of `s` in order of first occurrence, each once. */
  function Dedup<T(==)>(s: seq<T>): (r: seq<T>)
    ensures Distinct(r)
    ensures forall i :: 0 <= i < |r| ==> r[i] in s
    ensures forall i :: 0 <= i < |s| ==> s[i] in r
    ensures |r| <= |s|
    decreases |s|
  {
    if s == [] then []
    else
      var r := Dedup(s[..|s| - 1]);
      if s[|s| - 1] in r then r else r + [s[|s| - 1]]
  }

  /** De-duplicating a prefix gives a prefix of the de-duplicated whole. */
  lemma {:induction false} DedupPrefix<T>(s: seq<T>, i: nat)
    requires i <= |s|
    ensures Dedup(s[..i]) <= Dedup(s)
    decreases |s| - i
  {
    if i < |s| {
      var p := s[..|s| - 1];
      assert p[..i] == s[..i];
      DedupPrefix(p, i);
    } else {
      assert s[..i] == s;
    }
  }

  /** The first `n` elements of `s` (all of them when `s` is shorter). */
  function Take<T>(s: seq<T>, n: int): (r: seq<T>)
    ensures |r| <= |s| && r <= s
    ensures n >= 0 ==> |r| <= n
    ensures |s| <= n ==> r == s
  {
    if n <= 0 then [] else if |s| <= n then s else s[..n]
  }

  /** One more element de-duplicates onto the end unless already seen. */
  lemma DedupSnoc<T>(s: seq<T>, i: nat)
    requires i < |s|
    ensures Dedup(s[..i + 1]) == if s[i] in Dedup(s[..i]) then Dedup(s[..i]) else Dedup(s[..i]) + [s[i]]
  {
    assert s[..i + 1][..i] == s[..i];
  }

  /** A prefix of exactly `n` elements is what `Take` keeps. */
  lemma TakePrefix<T>(a: seq<T>, b: seq<T>, n: int)
    requires a <= b && |a| == n
    ensures Take(b, n) == a
  {
  }

  /** `s` with every occurrence of `x` dropped, order kept. */
  function Without<T(==,!new)>(s: seq<T>, x: T): (r: seq<T>)
    ensures forall y :: y in r <==> y in s && y != x
    ensures Distinct(s) ==> Distinct(r)
    decreases |s|
  {
    if s == [] then []
    else
      var r := Without(s[..|s| - 1], x);
      if s[|s| - 1] == x then r
      else
        assert Distinct(s) ==> s[|s| - 1] !in s[..|s| - 1];
        r + [s[|s| - 1]]
  }

  /** A rearrangement of a duplicate-free sequence is duplicate-free. */
  lemma DistinctPerm<T>(a: seq<T>, b: seq<T>)
    requires multiset(a) == multiset(b) && Distinct(a)
    ensures Distinct(b)
  {
    forall i, j | 0 <= i < j < |b| ensures b[i] != b[j] {
      if b[i] == b[j] {
        var x := b[i];
        assert b == b[..j] + [x] + b[j + 1..];
        assert x in b[..j];
        assert multiset(b)[x] >= 2;
        DistinctCount(a, x);
      }
    }
  }

  lemma {:induction false} DistinctCount<T>(a: seq<T>, x: T)
    requires Distinct(a)
    ensures multiset(a)[x] <= 1
    decreases |a|
  {
    if a != [] {
      var p := a[..|a| - 1];
      assert a == p + [a[|a| - 1]];
      DistinctCount(p, x);
      if a[|a| - 1] == x {
        assert x !in p;
      }
    }
  }

  /** Trading `p` for `q` on one side and `q` back for `p` elsewhere. */
  lemma MultisetSwap<T>(x: multiset<T>, z: multiset<T>, p: multiset<T>, q: multiset<T>, u: multiset<T>, v: multiset<T>)
    requires x + p == z + q && q + u == p + v
    ensures x + u == z + v
  {
    forall w ensures (x + u)[w] == (z + v)[w] {
      assert (x + p)[w] == (z + q)[w];
      assert (q + u)[w] == (p + v)[w];
    }
  }

  /** Cancelling a common part on both sides of a multiset equation. */
  lemma MultisetCancel<T>(x: multiset<T>, z: multiset<T>, p: multiset<T>, u: multiset<T>, v: multiset<T>)
    requires x + (p + u) == z + (p + v)
    ensures x + u == z + v
  {
    forall w ensures (x + u)[w] == (z + v)[w] {
      assert (x + (p + u))[w] == (z + (p + v))[w];
    }
  }

  /** Dropping an absent element changes nothing. */
  lemma {:induction false} WithoutAbsent<T(!new)>(s: seq<T>, x: T)
    requires x !in s
    ensures Without(s, x) == s
    decreases |s|
  {
    if s != [] {
      WithoutAbsent(s[..|s| - 1], x);
    }
  }

  /** In a duplicate-free sequence, dropping `x` cuts out its one position. */
  lemma {:induction false} WithoutAt<T(!new)>(s: seq<T>, x: T, i: nat)
    requires Distinct(s) && i < |s| && s[i] == x
    ensures Without(s, x) == s[..i] + s[i + 1..]
    decreases |s|
  {
    var p := s[..|s| - 1];
    if i == |s| - 1 {
      assert x !in p;
      WithoutAbsent(p, x);
    } else {
      WithoutAt(p, x, i);
      assert s[i + 1..] == p[i + 1..] + [s[|s| - 1]];
    }
  }
}
