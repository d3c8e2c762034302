/**
 * The port table read from the switch, put in port order by the exchange
 * ("bubble") sort of `Reinv.switch`: adjacent entries are swapped, MAC and
 * interface together, when the left one's `int(iface[6:])` is strictly greater.
 */
module PortTable {
  import opened Wrappers
  import opened Interfaces
  import opened Sorting

  /** One static entry of the switch's MAC address table. */
  datatype Binding = Binding(mac: string, iface: string)

  predicate Numbered(b: Binding)
  {
    PortNumber(b.iface).Some?
  }

  predicate AllNumbered(s: seq<Binding>)
  {
    forall b :: b in s ==> Numbered(b)
  }

  /**
   * The sort key. An entry without a number never takes part in a completed
   * sort (the comparison raises first), so the 0 given to it is never compared.
   */
  function Rank(b: Binding): int
  {
    match PortNumber(b.iface)
    case Some(n) => n
    case None => 0
  }

  predicate RankLe(a: Binding, b: Binding)
  {
    Rank(a) <= Rank(b)
  }

  /** The port table in port order, entries with equal numbers in input order. */
  function SortByPort(s: seq<Binding>): seq<Binding>
  {
    InsertionSort(s, RankLe)
  }

  lemma RankLeComparesRanks()
    ensures ComparesKeys(RankLe, Rank)
  {
  }

  /**
   * The reference order: ascending port numbers, the same entries, and entries
   * on the same port in their original order.
   */
  lemma SortByPortOrdered(s: seq<Binding>)
    ensures Ascending(SortByPort(s), Rank)
    ensures multiset(SortByPort(s)) == multiset(s)
    ensures SameKeyOrder(SortByPort(s), s, Rank)
  {
    RankLeComparesRanks();
    InsertionSortAscending(s, RankLe, Rank);
    InsertionSortStable(s, RankLe, Rank);
  }

  /** Any ascending rearrangement that keeps each port's entries in order is the reference order. */
  lemma SortByPortUnique(s: seq<Binding>, t: seq<Binding>)
    requires Ascending(t, Rank) && SameKeyOrder(t, s, Rank)
    ensures t == SortByPort(s)
  {
    SortByPortOrdered(s);
    AscendingUnique(t, SortByPort(s), Rank);
  }

  /** Every element from position `m` on is at least every element before it, by key. */
  ghost predicate SortedFrom<T>(s: seq<T>, m: int, key: T -> int)
  {
    forall k, l :: 0 <= k < l < |s| && m <= l ==> key(s[k]) <= key(s[l])
  }

  /** `s[j]` has the largest key of `s[..j + 1]`. */
  ghost predicate LargestAt<T>(s: seq<T>, j: int, key: T -> int)
    requires 0 <= j < |s|
  {
    forall k :: 0 <= k < j ==> key(s[k]) <= key(s[j])
  }

  /** The first `m` elements all satisfy `p`. */
  ghost predicate AllBefore<T>(s: seq<T>, m: int, p: T -> bool)
  {
    forall k :: 0 <= k < m && k < |s| ==> p(s[k])
  }

  /** `s[j]` and `s[j + 1]` swapped when the first has the greater key. */
  function CompareSwap<T>(s: seq<T>, j: int, key: T -> int): (t: seq<T>)
    requires 0 <= j < |s| - 1
    ensures multiset(t) == multiset(s) && SameKeyOrder(t, s, key)
  {
    if key(s[j]) > key(s[j + 1]) then
      SwapKeepsKeyOrder(s, j, key);
      s[j := s[j + 1]][j + 1 := s[j]]
    else s
  }

  /** One compare-and-swap carries the largest key one place right and keeps the sorted tail. */
  lemma CompareSwapStep<T>(s: seq<T>, j: int, m: int, key: T -> int)
    requires 0 <= j < m - 1 && m <= |s|
    requires SortedFrom(s, m, key) && LargestAt(s, j, key)
    ensures SortedFrom(CompareSwap(s, j, key), m, key) && LargestAt(CompareSwap(s, j, key), j + 1, key)
  {
  }

  /** A compare-and-swap of two checked elements extends the checked prefix past them. */
  lemma CompareSwapAllBefore<T>(s: seq<T>, j: int, m: int, key: T -> int, p: T -> bool)
    requires 0 <= j < |s| - 1 && j <= m && AllBefore(s, m, p) && p(s[j]) && p(s[j + 1])
    ensures AllBefore(CompareSwap(s, j, key), if m < j + 2 then j + 2 else m, p)
  {
  }

  /**
   * The exchange sort of `Reinv.switch`: for each pass `i`, walk the unsorted
   * prefix, read both numbers (failing if either does not parse) and swap on
   * strictly greater. Written over any element type: `numbered` says whether an
   * element's number parses and `key` is that number.
   */
  method ExchangeSort<T>(a: array<T>, numbered: T -> bool, key: T -> int) returns (ok: bool)
    modifies a
    ensures ok <==> a.Length < 2 || forall x :: x in old(a[..]) ==> numbered(x)
    ensures ok ==> Ascending(a[..], key) && SameKeyOrder(a[..], old(a[..]), key)
    ensures multiset(a[..]) == multiset(old(a[..]))
  {
    var n := a.Length;
    for i := 0 to n
      invariant multiset(a[..]) == multiset(old(a[..]))
      invariant SameKeyOrder(a[..], old(a[..]), key)
      invariant i > 0 && n >= 2 ==> AllBefore(a[..], n, numbered)
      invariant SortedFrom(a[..], n - i, key)
    {
      ghost var before := a[..];
      ok := ExchangePass(a, i, numbered, key);
      SameKeyOrderTransitive(a[..], before, old(a[..]), key);
      if !ok {
        var k :| 0 <= k < n && !numbered(a[k]);
        assert a[k] in a[..];
        assert a[k] in multiset(old(a[..]));
        return;
      }
    }
    ok := true;
    if n >= 2 {
      forall x | x in old(a[..]) ensures numbered(x) {
        assert x in multiset(a[..]);
      }
    }
  }

  /**
   * Pass `i` of the exchange sort: carries the largest key of the unsorted
   * prefix `a[..n - i]` to its end. The first pass reads every number.
   */
  method ExchangePass<T>(a: array<T>, i: nat, numbered: T -> bool, key: T -> int) returns (ok: bool)
    requires i < a.Length
    requires i > 0 ==> AllBefore(a[..], a.Length, numbered)
    requires SortedFrom(a[..], a.Length - i, key)
    modifies a
    ensures multiset(a[..]) == multiset(old(a[..]))
    ensures SameKeyOrder(a[..], old(a[..]), key)
    ensures ok ==> SortedFrom(a[..], a.Length - i - 1, key)
    ensures ok && a.Length >= 2 ==> AllBefore(a[..], a.Length, numbered)
    ensures !ok ==> i == 0 && a.Length >= 2 && !AllBefore(a[..], a.Length, numbered)
  {
    var n := a.Length;
    for j := 0 to n - i - 1
      invariant multiset(a[..]) == multiset(old(a[..]))
      invariant SameKeyOrder(a[..], old(a[..]), key)
      invariant AllBefore(a[..], if i > 0 then n else if j > 0 then j + 1 else 0, numbered)
      invariant SortedFrom(a[..], n - i, key) && LargestAt(a[..], j, key)
    {
      if !numbered(a[j]) || !numbered(a[j + 1]) {
        return false;
      }
      ghost var s := a[..];
      CompareSwapStep(s, j, n - i, key);
      CompareSwapAllBefore(s, j, if i > 0 then n else if j > 0 then j + 1 else 0, key, numbered);
      Exchange(a, j, key);
      SameKeyOrderTransitive(a[..], s, old(a[..]), key);
    }
    ok := true;
  }

  /** `if a[j] > a[j + 1]: swap them`. */
  method Exchange<T>(a: array<T>, j: int, key: T -> int)
    requires 0 <= j < a.Length - 1
    modifies a
    ensures a[..] == CompareSwap(old(a[..]), j, key)
  {
    if key(a[j]) > key(a[j + 1]) {
      a[j], a[j + 1] := a[j + 1], a[j];
    }
  }

  /**
   * `Reinv.switch`'s sort of the port table: fails (the comparison raises) when
   * the table has two or more entries and one has no port number; otherwise
   * leaves the entries in the reference port order.
   */
  method BubbleSort(a: array<Binding>) returns (ok: bool)
    modifies a
    ensures ok <==> a.Length < 2 || AllNumbered(old(a[..]))
    ensures ok ==> a[..] == SortByPort(old(a[..]))
    ensures multiset(a[..]) == multiset(old(a[..]))
  {
    ok := ExchangeSort(a, Numbered, Rank);
    if ok {
      SortByPortUnique(old(a[..]), a[..]);
    }
  }
}
