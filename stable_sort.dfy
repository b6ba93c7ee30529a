/** Array.prototype.sort called with a comparator (ECMA-262, 2019 edition, section 22.1.3.27):
    the sort must be stable, and for a consistent comparator the result is then determined.
    The comparator cmp is the function the program passes, after SortCompare's NaN-to-+0 rule. */
module Sorting {

  /** Place x after every element of s that does not compare greater than it. */
  function Insert<T>(cmp: (T, T) -> int, s: seq<T>, x: T): (r: seq<T>)
    ensures multiset(r) == multiset(s) + multiset{x}
  {
    if s == [] then [x]
    else if cmp(s[|s| - 1], x) > 0 then
      assert s == s[..|s| - 1] + [s[|s| - 1]];
      Insert(cmp, s[..|s| - 1], x) + [s[|s| - 1]]
    else s + [x]
  }

  /** Insertion sort: one stable algorithm among those the standard allows. */
  function Sort<T>(cmp: (T, T) -> int, s: seq<T>): (r: seq<T>)
    ensures multiset(r) == multiset(s)
  {
    if s == [] then []
    else
      assert s == s[..|s| - 1] + [s[|s| - 1]];
      Insert(cmp, Sort(cmp, s[..|s| - 1]), s[|s| - 1])
  }

  /** cmp orders the elements of s as the integer key does: a consistent comparator. */
  ghost predicate Consistent<T>(cmp: (T, T) -> int, key: T -> int, s: seq<T>) {
    forall a, b :: a in s && b in s ==> (cmp(a, b) > 0 <==> key(a) > key(b))
  }

  ghost predicate Ordered<T>(key: T -> int, s: seq<T>) {
    forall i, j :: 0 <= i < j < |s| ==> key(s[i]) <= key(s[j])
  }

  /** The elements of s whose key is k, in their order in s. */
  ghost function Ties<T>(key: T -> int, s: seq<T>, k: int): seq<T> {
    if s == [] then []
    else Ties(key, s[..|s| - 1], k) + (if key(s[|s| - 1]) == k then [s[|s| - 1]] else [])
  }

  function Map<T, U>(f: T -> U, s: seq<T>): (r: seq<U>)
    ensures |r| == |s| && forall i :: 0 <= i < |s| ==> r[i] == f(s[i])
  {
    seq(|s|, i requires 0 <= i < |s| => f(s[i]))
  }

  // ---------------------------------------------------------------- helpers

  lemma InMultiset<T>(s: seq<T>, t: seq<T>, y: T)
    requires multiset(s) == multiset(t) && y in s
    ensures y in t
  {
    assert y in multiset(s);
  }

  lemma ConsistentSub<T>(cmp: (T, T) -> int, key: T -> int, s: seq<T>, t: seq<T>)
    requires Consistent(cmp, key, s)
    requires forall y :: y in t ==> y in s
    ensures Consistent(cmp, key, t)
  {
  }

  // ---------------------------------------------------------------- sortedness

  lemma {:induction false} InsertOrdered<T>(cmp: (T, T) -> int, key: T -> int, s: seq<T>, x: T)
    requires Consistent(cmp, key, s + [x])
    requires Ordered(key, s)
    ensures Ordered(key, Insert(cmp, s, x))
  {
    if s != [] {
      var init, last := s[..|s| - 1], s[|s| - 1];
      assert last in s + [x] && x in s + [x];
      if cmp(last, x) > 0 {
        ConsistentSub(cmp, key, s + [x], init + [x]);
        InsertOrdered(cmp, key, init, x);
        var r := Insert(cmp, init, x);
        forall y | y in r ensures key(y) <= key(last) {
          InMultiset(r, init + [x], y);
          if y != x {
            var i :| 0 <= i < |init| && init[i] == y;
            assert s[i] == y;
          }
        }
        var t := r + [last];
        forall i, j | 0 <= i < j < |t| ensures key(t[i]) <= key(t[j]) {
          if j == |t| - 1 {
            assert t[i] in r;
          }
        }
      } else {
        var t := s + [x];
        forall i, j | 0 <= i < j < |t| ensures key(t[i]) <= key(t[j]) {
          if j == |t| - 1 && i < |s| - 1 {
            assert key(s[i]) <= key(last);
          }
        }
      }
    }
  }

  /** With a consistent comparator the result is in key order. */
  lemma {:induction false} SortOrdered<T>(cmp: (T, T) -> int, key: T -> int, s: seq<T>)
    requires Consistent(cmp, key, s)
    ensures Ordered(key, Sort(cmp, s))
    decreases |s|
  {
    if s != [] {
      var init, last := s[..|s| - 1], s[|s| - 1];
      assert s == init + [last];
      ConsistentSub(cmp, key, s, init);
      SortOrdered(cmp, key, init);
      var sorted := Sort(cmp, init);
      forall y | y in sorted + [last] ensures y in s {
        if y in sorted {
          InMultiset(sorted, init, y);
        }
      }
      ConsistentSub(cmp, key, s, sorted + [last]);
      InsertOrdered(cmp, key, sorted, last);
    }
  }

  // ---------------------------------------------------------------- stability

  lemma {:induction false} TiesAppend<T>(key: T -> int, a: seq<T>, b: seq<T>, k: int)
    ensures Ties(key, a + b, k) == Ties(key, a, k) + Ties(key, b, k)
    decreases |b|
  {
    if b == [] {
      assert a + b == a;
    } else {
      var b' := b[..|b| - 1];
      assert (a + b)[..|a + b| - 1] == a + b';
      assert (a + b)[|a + b| - 1] == b[|b| - 1];
      TiesAppend(key, a, b', k);
    }
  }

  lemma TiesSingle<T>(key: T -> int, x: T, k: int)
    ensures Ties(key, [x], k) == if key(x) == k then [x] else []
  {
    assert [x][..0] == [];
  }

  /** Two single ties lists swap when the keys differ (at most one of them is non-empty). */
  lemma TiesSwap<T>(key: T -> int, a: seq<T>, x: T, y: T, k: int)
    requires key(x) != key(y)
    ensures a + Ties(key, [x], k) + Ties(key, [y], k) == a + Ties(key, [y], k) + Ties(key, [x], k)
  {
    TiesSingle(key, x, k);
    TiesSingle(key, y, k);
  }

  lemma {:induction false} InsertPast<T>(cmp: (T, T) -> int, s: seq<T>, x: T)
    requires s != [] && cmp(s[|s| - 1], x) > 0
    ensures Insert(cmp, s, x) == Insert(cmp, s[..|s| - 1], x) + [s[|s| - 1]]
  {
  }

  /** Insert's recursive case: x passes the last element, whose key is greater. */
  lemma {:induction false} InsertTiesPast<T>(cmp: (T, T) -> int, key: T -> int, s: seq<T>, x: T, k: int)
    requires s != [] && cmp(s[|s| - 1], x) > 0 && key(s[|s| - 1]) > key(x)
    requires Ties(key, Insert(cmp, s[..|s| - 1], x), k) == Ties(key, s[..|s| - 1], k) + Ties(key, [x], k)
    ensures Ties(key, Insert(cmp, s, x), k) == Ties(key, s, k) + Ties(key, [x], k)
  {
    var init, last := s[..|s| - 1], s[|s| - 1];
    var moved := Insert(cmp, init, x);
    assert init + [last] == s;
    InsertPast(cmp, s, x);
    calc {
      Ties(key, moved + [last], k);
    == { TiesAppend(key, moved, [last], k); }
      Ties(key, moved, k) + Ties(key, [last], k);
    ==
      Ties(key, init, k) + Ties(key, [x], k) + Ties(key, [last], k);
    == { TiesSwap(key, Ties(key, init, k), x, last, k); }
      Ties(key, init, k) + Ties(key, [last], k) + Ties(key, [x], k);
    == { TiesAppend(key, init, [last], k); }
      Ties(key, s, k) + Ties(key, [x], k);
    }
  }

  lemma {:induction false} InsertTies<T>(cmp: (T, T) -> int, key: T -> int, s: seq<T>, x: T, k: int)
    requires forall y :: y in s ==> (cmp(y, x) > 0 <==> key(y) > key(x))
    requires Ordered(key, s)
    ensures Ties(key, Insert(cmp, s, x), k) == Ties(key, s, k) + Ties(key, [x], k)
    decreases |s|
  {
    if s == [] {
      assert Insert(cmp, s, x) == [] + [x];
      TiesAppend(key, [], [x], k);
    } else {
      var init, last := s[..|s| - 1], s[|s| - 1];
      if cmp(last, x) > 0 {
        assert key(last) > key(x) by { assert last in s; }
        assert forall y :: y in init ==> y in s;
        InsertTies(cmp, key, init, x, k);
        InsertTiesPast(cmp, key, s, x, k);
      } else {
        assert Insert(cmp, s, x) == s + [x];
        TiesAppend(key, s, [x], k);
      }
    }
  }

  /** Stability: the elements of any one key keep their relative order. */
  lemma {:induction false} SortStable<T>(cmp: (T, T) -> int, key: T -> int, s: seq<T>, k: int)
    requires Consistent(cmp, key, s)
    ensures Ties(key, Sort(cmp, s), k) == Ties(key, s, k)
    decreases |s|
  {
    if s != [] {
      var init, last := s[..|s| - 1], s[|s| - 1];
      assert s == init + [last];
      ConsistentSub(cmp, key, s, init);
      SortStable(cmp, key, init, k);
      SortOrdered(cmp, key, init);
      var sorted := Sort(cmp, init);
      forall y | y in sorted + [last] ensures y in s {
        if y in sorted {
          InMultiset(sorted, init, y);
        }
      }
      ConsistentSub(cmp, key, s, sorted + [last]);
      assert forall y :: y in sorted ==> y in sorted + [last];
      assert last in sorted + [last];
      InsertTies(cmp, key, sorted, last, k);
      TiesAppend(key, init, [last], k);
    }
  }

  /** A comparator that never answers "greater" leaves the order as it was. */
  lemma {:induction false} SortNeverGreater<T>(cmp: (T, T) -> int, s: seq<T>)
    requires forall a, b :: cmp(a, b) <= 0
    ensures Sort(cmp, s) == s
    decreases |s|
  {
    if s != [] {
      var init := s[..|s| - 1];
      SortNeverGreater(cmp, init);
      assert init + [s[|s| - 1]] == s;
    }
  }

  lemma {:induction false} SortTwo<T>(cmp: (T, T) -> int, a: T, b: T)
    requires cmp(a, b) <= 0
    ensures Sort(cmp, [a, b]) == [a, b]
  {
    assert [a][..0] == [] && [a, b][..1] == [a];
    assert Sort(cmp, [a]) == Insert(cmp, [], a) == [a];
  }

  lemma {:induction false} InsertFront<T>(cmp: (T, T) -> int, a: T, b: T, c: T)
    requires cmp(b, c) > 0 && cmp(a, c) > 0
    ensures Insert(cmp, [a, b], c) == [c, a, b]
  {
    assert [a, b][..1] == [a] && [a][..0] == [];
    assert Insert(cmp, [a], c) == Insert(cmp, [], c) + [a] == [c, a];
  }

  /** Three elements, the last of which compares below both others, while the first two are
      in order: the last moves to the front. */
  lemma {:induction false} SortLastToFront<T>(cmp: (T, T) -> int, a: T, b: T, c: T)
    requires cmp(a, b) <= 0 && cmp(b, c) > 0 && cmp(a, c) > 0
    ensures Sort(cmp, [a, b, c]) == [c, a, b]
  {
    assert [a, b, c][..2] == [a, b];
    SortTwo(cmp, a, b);
    InsertFront(cmp, a, b, c);
  }

  // ---------------------------------------------------------------- sorting after a map

  lemma {:induction false} InsertMap<T, U>(cmp: (T, T) -> int, cmpU: (U, U) -> int, f: T -> U, s: seq<T>, x: T)
    requires forall a, b :: cmpU(f(a), f(b)) == cmp(a, b)
    ensures Insert(cmpU, Map(f, s), f(x)) == Map(f, Insert(cmp, s, x))
    decreases |s|
  {
    if s != [] {
      var init, last := s[..|s| - 1], s[|s| - 1];
      var ms := Map(f, s);
      assert ms[..|ms| - 1] == Map(f, init);
      assert ms[|ms| - 1] == f(last);
      if cmp(last, x) > 0 {
        InsertMap(cmp, cmpU, f, init, x);
        assert Map(f, Insert(cmp, init, x) + [last]) == Map(f, Insert(cmp, init, x)) + [f(last)];
      } else {
        assert Map(f, s + [x]) == ms + [f(x)];
      }
    }
  }

  /** Sorting commutes with a map f when cmpU compares images as cmp compares the originals. */
  lemma {:induction false} SortMap<T, U>(cmp: (T, T) -> int, cmpU: (U, U) -> int, f: T -> U, s: seq<T>)
    requires forall a, b :: cmpU(f(a), f(b)) == cmp(a, b)
    ensures Sort(cmpU, Map(f, s)) == Map(f, Sort(cmp, s))
    decreases |s|
  {
    if s != [] {
      var init := s[..|s| - 1];
      var ms := Map(f, s);
      assert ms[..|ms| - 1] == Map(f, init);
      SortMap(cmp, cmpU, f, init);
      InsertMap(cmp, cmpU, f, Sort(cmp, init), s[|s| - 1]);
    }
  }
}
