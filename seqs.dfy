/** Sequence helpers: the order-preserving deduplication that
    `Array.from(new Set(xs))` performs, the subsequence relation, and the
    concatenation of per-element contributions that a loop pushing onto one
    array builds. */
module Seqs {

  predicate NoDuplicates<T(==)>(s: seq<T>) {
    forall i, j :: 0 <= i < j < |s| ==> s[i] != s[j]
  }

  /** Joining two duplicate-free sequences with no value in common gives a
      duplicate-free sequence. */
  lemma NoDuplicatesAppend<T>(a: seq<T>, b: seq<T>)
    requires NoDuplicates(a) && NoDuplicates(b)
    requires forall x :: x in a ==> x !in b
    ensures NoDuplicates(a + b)
  {
    forall i, j | 0 <= i < j < |a + b| ensures (a + b)[i] != (a + b)[j] {
      if i < |a| && |a| <= j {
        assert (a + b)[i] in a && (a + b)[j] == b[j - |a|];
      }
    }
  }

  /** `Array.from(new Set(s))`: each value once, at the place of its first
      occurrence. Adding the last element to the set is a no-op when it is
      already there, which is how a JavaScript Set grows. */
  function Dedup<T(==)>(s: seq<T>): (r: seq<T>)
    ensures NoDuplicates(r)
    ensures forall i :: 0 <= i < |r| ==> r[i] in s
    ensures forall i :: 0 <= i < |s| ==> s[i] in r
    ensures |r| <= |s|
    decreases |s|
  {
    if |s| == 0 then []
    else
      var d := Dedup(s[..|s| - 1]);
      if s[|s| - 1] in d then d else d + [s[|s| - 1]]
  }

  /** Deduplicating `a + b` keeps the deduplicated `a` in front: values of
      `b` only ever extend it. */
  lemma {:induction false} DedupPrefix<T>(a: seq<T>, b: seq<T>)
    ensures Dedup(a) <= Dedup(a + b)
    decreases |b|
  {
    if |b| == 0 {
      assert a + b == a;
    } else {
      var b' := b[..|b| - 1];
      assert (a + b)[..|a + b| - 1] == a + b';
      DedupPrefix(a, b');
    }
  }

  /** `a` is obtained from `b` by deleting elements, keeping order. */
  predicate IsSubsequence<T(==)>(a: seq<T>, b: seq<T>)
    decreases |b|
  {
    if |a| == 0 then true
    else if |b| == 0 then false
    else (a[|a| - 1] == b[|b| - 1] && IsSubsequence(a[..|a| - 1], b[..|b| - 1]))
         || IsSubsequence(a, b[..|b| - 1])
  }

  lemma AppendAssoc<T>(a: seq<T>, b: seq<T>, c: seq<T>)
    ensures (a + b) + c == a + (b + c)
  {
  }

  /** `s.map(f)`. */
  function Map<A, B>(s: seq<A>, f: A -> B): (r: seq<B>)
    ensures |r| == |s|
  {
    seq(|s|, i requires 0 <= i < |s| => f(s[i]))
  }

  lemma MapAt<A, B>(s: seq<A>, f: A -> B)
    ensures forall i :: 0 <= i < |s| ==> Map(s, f)[i] == f(s[i])
  {
  }

  lemma MapCons<A, B>(x: A, s: seq<A>, f: A -> B)
    ensures multiset(Map([x] + s, f)) == multiset{f(x)} + multiset(Map(s, f))
  {
    assert Map([x] + s, f) == [f(x)] + Map(s, f);
  }

  lemma MapAppend<A, B>(a: seq<A>, b: seq<A>, f: A -> B)
    ensures Map(a + b, f) == Map(a, f) + Map(b, f)
  {
  }

  /** Mapping a prefix gives a sub-multiset of mapping the whole. */
  lemma MapPrefix<A, B>(s: seq<A>, k: nat, f: A -> B)
    requires k <= |s|
    ensures multiset(Map(s[..k], f)) <= multiset(Map(s, f))
  {
    assert s == s[..k] + s[k..];
    MapAppend(s[..k], s[k..], f);
  }

  /** The concatenation of `f(x)` over the elements of `s`, in order. */
  function FlatMap<A, B>(s: seq<A>, f: A -> seq<B>): seq<B>
    decreases |s|
  {
    if |s| == 0 then [] else FlatMap(s[..|s| - 1], f) + f(s[|s| - 1])
  }

  lemma FlatMapSnoc<A, B>(s: seq<A>, k: nat, f: A -> seq<B>)
    requires k < |s|
    ensures FlatMap(s[..k + 1], f) == FlatMap(s[..k], f) + f(s[k])
  {
    assert s[..k + 1][..k] == s[..k];
  }

  lemma {:induction false} FlatMapAppend<A, B>(a: seq<A>, b: seq<A>, f: A -> seq<B>)
    ensures FlatMap(a + b, f) == FlatMap(a, f) + FlatMap(b, f)
    decreases |b|
  {
    if |b| == 0 {
      assert a + b == a;
    } else {
      var b' := b[..|b| - 1];
      assert (a + b)[..|a + b| - 1] == a + b';
      FlatMapAppend(a, b', f);
    }
  }

  lemma FlatMapPrefix<A, B>(s: seq<A>, k: nat, f: A -> seq<B>)
    requires k <= |s|
    ensures FlatMap(s[..k], f) <= FlatMap(s, f)
  {
    var a, b := s[..k], s[k..];
    assert a + b == s;
    FlatMapAppend(a, b, f);
    assert FlatMap(s, f) == FlatMap(a, f) + FlatMap(b, f);
  }

  /** Every element of the concatenation comes from the contribution of
      some element of `s`. */
  lemma {:induction false} FlatMapMember<A, B>(s: seq<A>, f: A -> seq<B>, y: B)
    requires y in FlatMap(s, f)
    ensures exists i :: 0 <= i < |s| && y in f(s[i])
    decreases |s|
  {
    var n := |s| - 1;
    if y in FlatMap(s[..n], f) {
      FlatMapMember(s[..n], f, y);
      var i :| 0 <= i < n && y in f(s[..n][i]);
      assert s[..n][i] == s[i];
    } else {
      assert y in f(s[n]);
    }
  }

  /** The positions `i < n` that pass `keep`, in increasing order: the
      indices a `filter` over a list of length `n` retains. */
  function Positions(n: nat, keep: nat -> bool): (ps: seq<nat>)
    ensures forall j :: 0 <= j < |ps| ==> ps[j] < n && keep(ps[j])
    ensures forall j, k :: 0 <= j < k < |ps| ==> ps[j] < ps[k]
    ensures forall i :: 0 <= i < n && keep(i) ==> i in ps
    decreases n
  {
    if n == 0 then []
    else
      var ps := Positions(n - 1, keep);
      if keep(n - 1) then ps + [n - 1] else ps
  }

  /** One more position passes the test, or none does. */
  lemma PositionsSnoc(n: nat, keep: nat -> bool)
    ensures Positions(n + 1, keep) == Positions(n, keep) + (if keep(n) then [n] else [])
  {
  }
}
