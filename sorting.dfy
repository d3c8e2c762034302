/**
 * A stable insertion sort by a "less or equal" relation: the reference for what
 * Python's `sorted()` returns and for the order the hand-written bubble sort must
 * reach.
 */
module Sorting {

  ghost predicate SortedBy<T>(s: seq<T>, le: (T, T) -> bool)
  {
    forall i, j :: 0 <= i < j < |s| ==> le(s[i], s[j])
  }

  /** `le` compares any two values and is transitive. */
  ghost predicate TotalPreorder<T(!new)>(le: (T, T) -> bool)
  {
    && (forall x, y :: le(x, y) || le(y, x))
    && (forall x, y, z :: le(x, y) && le(y, z) ==> le(x, z))
  }

  /** `x` placed before the first element it is less or equal to. */
  function Insert<T>(x: T, s: seq<T>, le: (T, T) -> bool): (r: seq<T>)
    ensures multiset(r) == multiset(s) + multiset{x}
  {
    if s == [] || le(x, s[0]) then [x] + s
    else
      assert s == [s[0]] + s[1..];
      [s[0]] + Insert(x, s[1..], le)
  }

  function InsertionSort<T>(s: seq<T>, le: (T, T) -> bool): (r: seq<T>)
    ensures multiset(r) == multiset(s)
  {
    if s == [] then []
    else
      assert s == [s[0]] + s[1..];
      Insert(s[0], InsertionSort(s[1..], le), le)
  }

  lemma SortedTail<T>(s: seq<T>, le: (T, T) -> bool)
    requires s != [] && SortedBy(s, le)
    ensures SortedBy(s[1..], le)
  {
    var tail := s[1..];
    forall i, j | 0 <= i < j < |tail| ensures le(tail[i], tail[j]) {
      assert tail[i] == s[i + 1] && tail[j] == s[j + 1];
    }
  }

  /** The first element of a sorted list is below everything in it. */
  lemma FirstBelowAll<T>(s: seq<T>, le: (T, T) -> bool, e: T)
    requires s != [] && SortedBy(s, le) && e in s[1..]
    ensures le(s[0], e)
  {
    var k :| 0 <= k < |s[1..]| && s[1..][k] == e;
    assert s[k + 1] == e;
  }

  /** A list sorted after its head, and the head below all of it, is sorted. */
  lemma SortedCons<T>(h: T, rest: seq<T>, le: (T, T) -> bool)
    requires SortedBy(rest, le) && forall e :: e in rest ==> le(h, e)
    ensures SortedBy([h] + rest, le)
  {
    var r := [h] + rest;
    forall i, j | 0 <= i < j < |r| ensures le(r[i], r[j]) {
      if i == 0 {
        assert r[j] == rest[j - 1] && r[j] in rest;
      } else {
        assert r[i] == rest[i - 1] && r[j] == rest[j - 1];
      }
    }
  }

  lemma {:induction false} InsertSorted<T(!new)>(x: T, s: seq<T>, le: (T, T) -> bool)
    requires TotalPreorder(le) && SortedBy(s, le)
    ensures SortedBy(Insert(x, s, le), le)
  {
    if s != [] && !le(x, s[0]) {
      var tail := s[1..];
      SortedTail(s, le);
      InsertSorted(x, tail, le);
      var rest := Insert(x, tail, le);
      assert le(s[0], x);
      forall e | e in rest ensures le(s[0], e) {
        assert e in multiset(rest);
        if e != x {
          assert e in multiset(tail);
          FirstBelowAll(s, le, e);
        }
      }
      SortedCons(s[0], rest, le);
    } else {
      forall e | e in s ensures le(x, e) {
        if s != [] {
          var k :| 0 <= k < |s| && s[k] == e;
          if k > 0 {
            FirstBelowAll(s, le, e);
          }
        }
      }
      SortedCons(x, s, le);
    }
  }

  lemma {:induction false} InsertionSortSorted<T(!new)>(s: seq<T>, le: (T, T) -> bool)
    requires TotalPreorder(le)
    ensures SortedBy(InsertionSort(s, le), le)
  {
    if s != [] {
      InsertionSortSorted(s[1..], le);
      InsertSorted(s[0], InsertionSort(s[1..], le), le);
    }
  }

  /**
   * Sorting by an integer key: `le` compares keys. The elements with key `p`,
   * in their order, tell whether a reordering kept equal keys in place.
   */
  ghost predicate ComparesKeys<T(!new)>(le: (T, T) -> bool, key: T -> int)
  {
    forall x, y :: le(x, y) <==> key(x) <= key(y)
  }

  predicate Ascending<T>(s: seq<T>, key: T -> int)
  {
    forall i, j :: 0 <= i < j < |s| ==> key(s[i]) <= key(s[j])
  }

  /** The elements whose key is `p`, in their order. */
  function WithKey<T>(s: seq<T>, key: T -> int, p: int): seq<T>
  {
    if s == [] then []
    else (if key(s[0]) == p then [s[0]] else []) + WithKey(s[1..], key, p)
  }

  /** Elements with equal keys appear in the same relative order in both. */
  ghost predicate SameKeyOrder<T>(s: seq<T>, t: seq<T>, key: T -> int)
  {
    forall p :: WithKey(s, key, p) == WithKey(t, key, p)
  }

  lemma SameKeyOrderTransitive<T>(s: seq<T>, t: seq<T>, u: seq<T>, key: T -> int)
    requires SameKeyOrder(s, t, key) && SameKeyOrder(t, u, key)
    ensures SameKeyOrder(s, u, key)
  {
    forall p ensures WithKey(s, key, p) == WithKey(u, key, p) {
      assert WithKey(s, key, p) == WithKey(t, key, p);
    }
  }

  lemma {:induction false} WithKeyAppend<T>(s: seq<T>, t: seq<T>, key: T -> int, p: int)
    ensures WithKey(s + t, key, p) == WithKey(s, key, p) + WithKey(t, key, p)
  {
    if s == [] {
      assert s + t == t;
    } else {
      var head := if key(s[0]) == p then [s[0]] else [];
      assert (s + t)[0] == s[0];
      assert (s + t)[1..] == s[1..] + t;
      assert WithKey(s + t, key, p) == head + WithKey(s[1..] + t, key, p);
      WithKeyAppend(s[1..], t, key, p);
      assert head + (WithKey(s[1..], key, p) + WithKey(t, key, p))
          == (head + WithKey(s[1..], key, p)) + WithKey(t, key, p);
    }
  }

  lemma WithKeyCons<T>(h: T, s: seq<T>, key: T -> int, p: int)
    ensures WithKey([h] + s, key, p) == (if key(h) == p then [h] else []) + WithKey(s, key, p)
  {
    assert ([h] + s)[0] == h && ([h] + s)[1..] == s;
  }

  lemma {:induction false} InsertWithKey<T(!new)>(x: T, t: seq<T>, le: (T, T) -> bool, key: T -> int, p: int)
    requires ComparesKeys(le, key)
    ensures WithKey(Insert(x, t, le), key, p) == (if key(x) == p then [x] else []) + WithKey(t, key, p)
  {
    if t == [] || le(x, t[0]) {
      WithKeyCons(x, t, key, p);
    } else {
      var rest := Insert(x, t[1..], le);
      assert Insert(x, t, le) == [t[0]] + rest;
      InsertWithKey(x, t[1..], le, key, p);
      WithKeyCons(t[0], rest, key, p);
      assert t == [t[0]] + t[1..];
      WithKeyCons(t[0], t[1..], key, p);
      assert key(t[0]) < key(x);
      PrefixesCommute(if key(t[0]) == p then [t[0]] else [], if key(x) == p then [x] else [],
        WithKey(t[1..], key, p));
    }
  }

  /** When one of two prefixes is empty, their order does not matter. */
  lemma PrefixesCommute<T>(a: seq<T>, b: seq<T>, w: seq<T>)
    requires a == [] || b == []
    ensures a + (b + w) == b + (a + w)
  {
    if a == [] {
      assert a + (b + w) == b + w == b + (a + w);
    } else {
      assert a + (b + w) == a + w == b + (a + w);
    }
  }

  /** The insertion sort by key is stable. */
  lemma {:induction false} InsertionSortStable<T(!new)>(s: seq<T>, le: (T, T) -> bool, key: T -> int)
    requires ComparesKeys(le, key)
    ensures SameKeyOrder(InsertionSort(s, le), s, key)
  {
    if s != [] {
      InsertionSortStable(s[1..], le, key);
      forall p ensures WithKey(InsertionSort(s, le), key, p) == WithKey(s, key, p) {
        InsertWithKey(s[0], InsertionSort(s[1..], le), le, key, p);
      }
    }
  }

  lemma InsertionSortAscending<T(!new)>(s: seq<T>, le: (T, T) -> bool, key: T -> int)
    requires ComparesKeys(le, key)
    ensures Ascending(InsertionSort(s, le), key)
  {
    InsertionSortSorted(s, le);
  }

  lemma {:induction false} WithKeyMembers<T>(s: seq<T>, key: T -> int, p: int)
    ensures forall x :: x in WithKey(s, key, p) ==> x in s && key(x) == p
  {
    if s != [] {
      WithKeyMembers(s[1..], key, p);
    }
  }

  lemma WithKeyOfFirst<T>(s: seq<T>, key: T -> int)
    ensures s != [] ==> WithKey(s, key, key(s[0])) != []
  {
  }

  /** Two ascending sequences with the same per-key order start alike. */
  lemma SameFirstByKey<T>(s: seq<T>, t: seq<T>, key: T -> int)
    requires s != [] && t != []
    requires Ascending(s, key) && Ascending(t, key) && SameKeyOrder(s, t, key)
    ensures s[0] == t[0]
  {
    var p, q := key(s[0]), key(t[0]);
    WithKeyOfFirst(s, key);
    WithKeyOfFirst(t, key);
    WithKeyMembers(s, key, q);
    WithKeyMembers(t, key, p);
    assert WithKey(s, key, p) == WithKey(t, key, p);
    assert WithKey(s, key, q) == WithKey(t, key, q);
    var x := WithKey(t, key, p)[0];
    assert x in t && key(x) == p;
    var y := WithKey(s, key, q)[0];
    assert y in s && key(y) == q;
    assert p == q;
    assert WithKey(s, key, p)[0] == s[0];
    assert WithKey(t, key, p)[0] == t[0];
  }

  /** Dropping a common first element keeps the per-key order. */
  lemma SameKeyOrderTails<T>(s: seq<T>, t: seq<T>, key: T -> int)
    requires s != [] && t != [] && s[0] == t[0] && SameKeyOrder(s, t, key)
    ensures SameKeyOrder(s[1..], t[1..], key)
  {
    forall r ensures WithKey(s[1..], key, r) == WithKey(t[1..], key, r) {
      assert WithKey(s, key, r) == WithKey(t, key, r);
      var h := if key(s[0]) == r then [s[0]] else [];
      assert WithKey(s, key, r) == h + WithKey(s[1..], key, r);
      assert WithKey(t, key, r) == h + WithKey(t[1..], key, r);
      assert WithKey(s[1..], key, r) == WithKey(s, key, r)[|h|..];
      assert WithKey(t[1..], key, r) == WithKey(t, key, r)[|h|..];
    }
  }

  lemma AscendingTail<T>(s: seq<T>, key: T -> int)
    requires s != [] && Ascending(s, key)
    ensures Ascending(s[1..], key)
  {
    var tail := s[1..];
    forall i, j | 0 <= i < j < |tail| ensures key(tail[i]) <= key(tail[j]) {
      assert tail[i] == s[i + 1] && tail[j] == s[j + 1];
    }
  }

  /** An ascending sequence is determined by its elements of each key, in order. */
  lemma {:induction false} AscendingUnique<T>(s: seq<T>, t: seq<T>, key: T -> int)
    requires Ascending(s, key) && Ascending(t, key) && SameKeyOrder(s, t, key)
    ensures s == t
    decreases |s|
  {
    WithKeyOfFirst(s, key);
    WithKeyOfFirst(t, key);
    if s != [] && t != [] {
      SameFirstByKey(s, t, key);
      SameKeyOrderTails(s, t, key);
      AscendingTail(s, key);
      AscendingTail(t, key);
      AscendingUnique(s[1..], t[1..], key);
      assert s == [s[0]] + s[1..] && t == [t[0]] + t[1..];
    }
  }

  /** Swapping two neighbours with different keys keeps the order among equal keys. */
  lemma SwapKeepsKeyOrder<T>(s: seq<T>, j: int, key: T -> int)
    requires 0 <= j < |s| - 1 && key(s[j]) != key(s[j + 1])
    ensures SameKeyOrder(s[j := s[j + 1]][j + 1 := s[j]], s, key)
  {
    var u, v := s[..j], s[j + 2..];
    var t := s[j := s[j + 1]][j + 1 := s[j]];
    assert s == u + [s[j], s[j + 1]] + v;
    assert t == u + [s[j + 1], s[j]] + v;
    forall p ensures WithKey(t, key, p) == WithKey(s, key, p) {
      WithKeyAppend(u + [s[j], s[j + 1]], v, key, p);
      WithKeyAppend(u, [s[j], s[j + 1]], key, p);
      WithKeyAppend(u + [s[j + 1], s[j]], v, key, p);
      WithKeyAppend(u, [s[j + 1], s[j]], key, p);
      assert [s[j], s[j + 1]][1..] == [s[j + 1]];
      assert [s[j + 1], s[j]][1..] == [s[j]];
    }
  }
}
