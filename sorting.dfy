/** `Array.prototype.sort` with a comparator, as a stable insertion sort over
    a "may precede" relation, and the `slice(0, n)` taken of its result. */
module Sorting {
  import opened Seqs

  ghost predicate TotalPreorder<T(!new)>(le: (T, T) -> bool) {
    && (forall x, y :: le(x, y) || le(y, x))
    && (forall x, y, z :: le(x, y) && le(y, z) ==> le(x, z))
  }

  predicate SortedBy<T>(s: seq<T>, le: (T, T) -> bool) {
    forall i, j :: 0 <= i < j < |s| ==> le(s[i], s[j])
  }

  /** Places `x` in front of the first element it may precede, so that it
      stays ahead of the elements it ties with. */
  function Insert<T(==)>(x: T, s: seq<T>, le: (T, T) -> bool): (r: seq<T>)
    ensures multiset(r) == multiset(s) + multiset{x}
    ensures |r| == |s| + 1
  {
    if |s| == 0 then [x]
    else if le(x, s[0]) then [x] + s
    else
      assert s == [s[0]] + s[1..];
      [s[0]] + Insert(x, s[1..], le)
  }

  function SortBy<T(==)>(s: seq<T>, le: (T, T) -> bool): (r: seq<T>)
    ensures multiset(r) == multiset(s)
    ensures |r| == |s|
  {
    if |s| == 0 then []
    else
      assert s == [s[0]] + s[1..];
      Insert(s[0], SortBy(s[1..], le), le)
  }

  lemma {:induction false} InsertSorted<T(!new)>(x: T, s: seq<T>, le: (T, T) -> bool)
    requires TotalPreorder(le)
    requires SortedBy(s, le)
    ensures SortedBy(Insert(x, s, le), le)
  {
    if |s| > 0 && !le(x, s[0]) {
      var rest := Insert(x, s[1..], le);
      InsertSorted(x, s[1..], le);
      assert le(s[0], x);
      forall j | 0 <= j < |rest| ensures le(s[0], rest[j]) {
        assert rest[j] in multiset(rest);
        if rest[j] != x {
          assert rest[j] in multiset(s[1..]);
          var k :| 0 <= k < |s[1..]| && s[1..][k] == rest[j];
          assert s[k + 1] == rest[j];
        }
      }
      var r := [s[0]] + rest;
      forall i, j | 0 <= i < j < |r| ensures le(r[i], r[j]) {
        if i > 0 {
          assert r[i] == rest[i - 1] && r[j] == rest[j - 1];
        } else {
          assert r[j] == rest[j - 1];
        }
      }
    }
  }

  lemma {:induction false} SortBySorted<T(!new)>(s: seq<T>, le: (T, T) -> bool)
    requires TotalPreorder(le)
    ensures SortedBy(SortBy(s, le), le)
  {
    if |s| > 0 {
      SortBySorted(s[1..], le);
      InsertSorted(s[0], SortBy(s[1..], le), le);
    }
  }

  /** `sort(le).slice(0, n)`. */
  function Top<T(==)>(s: seq<T>, le: (T, T) -> bool, n: nat): seq<T> {
    SortBy(s, le)[..if n < |s| then n else |s|]
  }

  /** The first `n` elements of the sorted sequence are a top-n selection:
      min(n, |s|) elements of `s`, in order, none more often than in `s`,
      and every element of the input is either selected or sorts after (or
      with) everything selected. */
  lemma TopShape<T(!new)>(s: seq<T>, le: (T, T) -> bool, n: nat)
    requires TotalPreorder(le)
    ensures var top := Top(s, le, n);
      && |top| == (if n < |s| then n else |s|)
      && (forall i :: 0 <= i < |top| ==> top[i] in s)
      && SortedBy(top, le)
      && multiset(top) <= multiset(s)
      && (forall k :: 0 <= k < |s| ==>
            s[k] in top || forall i :: 0 <= i < |top| ==> le(top[i], s[k]))
  {
    TopOrder(s, le, n);
    var sorted := SortBy(s, le);
    var top := Top(s, le, n);
    assert sorted == top + sorted[|top|..];
  }

  lemma TopOrder<T(!new)>(s: seq<T>, le: (T, T) -> bool, n: nat)
    requires TotalPreorder(le)
    ensures var top := Top(s, le, n);
      && |top| == (if n < |s| then n else |s|)
      && (forall i :: 0 <= i < |top| ==> top[i] in s)
      && SortedBy(top, le)
      && (forall k :: 0 <= k < |s| ==>
            s[k] in top || forall i :: 0 <= i < |top| ==> le(top[i], s[k]))
  {
    var sorted := SortBy(s, le);
    SortBySorted(s, le);
    var top := Top(s, le, n);
    forall i | 0 <= i < |top| ensures top[i] in s {
      assert top[i] == sorted[i];
      assert sorted[i] in multiset(sorted);
    }
    forall i, j | 0 <= i < j < |top| ensures le(top[i], top[j]) {
      assert top[i] == sorted[i] && top[j] == sorted[j];
    }
    forall k | 0 <= k < |s| && s[k] !in top
      ensures forall i :: 0 <= i < |top| ==> le(top[i], s[k])
    {
      assert s[k] in multiset(sorted);
      var p :| 0 <= p < |sorted| && sorted[p] == s[k];
    }
  }

  lemma {:induction false} InsertMap<T, U>(x: T, s: seq<T>, le: (T, T) -> bool, f: T -> U)
    ensures multiset(Map(Insert(x, s, le), f)) == multiset{f(x)} + multiset(Map(s, f))
    decreases |s|
  {
    if |s| > 0 {
      if le(x, s[0]) {
        assert Insert(x, s, le) == [x] + s;
        MapCons(x, s, f);
      } else {
        var rest := Insert(x, s[1..], le);
        assert Insert(x, s, le) == [s[0]] + rest;
        InsertMap(x, s[1..], le, f);
        MapCons(s[0], rest, f);
        assert s == [s[0]] + s[1..];
        MapCons(s[0], s[1..], f);
        MultisetSwap(multiset{f(s[0])}, multiset{f(x)}, multiset(Map(s[1..], f)));
      }
    }
  }

  lemma MultisetSwap<U>(a: multiset<U>, b: multiset<U>, c: multiset<U>)
    ensures a + (b + c) == b + (a + c)
  {
  }

  lemma {:induction false} SortByMap<T, U>(s: seq<T>, le: (T, T) -> bool, f: T -> U)
    ensures multiset(Map(SortBy(s, le), f)) == multiset(Map(s, f))
    decreases |s|
  {
    if |s| > 0 {
      var t := SortBy(s[1..], le);
      assert SortBy(s, le) == Insert(s[0], t, le);
      SortByMap(s[1..], le, f);
      InsertMap(s[0], t, le, f);
      assert s == [s[0]] + s[1..];
      MapCons(s[0], s[1..], f);
    }
  }

  /** Whatever is projected out of the selected elements, each value occurs
      at most as often as among the projections of the input. */
  lemma TopMap<T, U>(s: seq<T>, le: (T, T) -> bool, n: nat, f: T -> U)
    ensures multiset(Map(Top(s, le, n), f)) <= multiset(Map(s, f))
  {
    SortByMap(s, le, f);
    MapPrefix(SortBy(s, le), if n < |s| then n else |s|, f);
  }
}
