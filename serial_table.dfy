/**
 * The MAC-to-serial script: `LoginSwitch` expands the port specification into
 * a sorted list of interfaces and a summary with one blank entry per
 * interface, `mac_address_table` fills in each interface's MAC address, and
 * the main loop fills in each access point's serial number.
 *
 * The switch's `show mac address-table` output, as matched by the script's
 * regular expression, and the inventory service's serial lookup are
 * parameters: `found(iface)` is the list of dotted addresses the expression
 * finds for an interface, `serialOf(mac)` the serial number the lookup
 * answers for a MAC address (None where the answer cannot be parsed).
 */
module SerialTable {
  import opened Wrappers
  import opened Text
  import opened Interfaces
  import opened Sorting
  import opened MacAddress
  import opened OrderedDict
  import PortRange

  /** What `self.ports` holds before the prefix is added. */
  datatype Item =
    | Number(n: int)      // from `range(from_, to)`
    | Verbatim(s: string) // a token without '-', kept as text

  /** Why constructing a `LoginSwitch` raises. */
  datatype InitError =
    | NotANumber      // ValueError: `int()` refuses a bound of an `A-B` token
    | NoPreviousRange // UnboundLocalError: a token of three or more parts comes first
    | Unorderable     // TypeError: `sorted()` meets both numbers and text

  /** `{'mac': ..., 'serial': ...}`. */
  datatype Entry = Entry(mac: string, serial: string)

  /** Where the script stops with an exception. */
  datatype Failure =
    | InitFailed(cause: InitError)
    | NoMacFound    // IndexError: no address matched for an interface
    | NoSerialFound // the serial number cannot be read from the lookup's answer

  /** `[n for n in range(lo, hi)]`. */
  function Numbers(lo: int, hi: int): (r: seq<Item>)
    ensures |r| == if lo < hi then hi - lo else 0
  {
    seq(if lo < hi then hi - lo else 0, i => Number(lo + i))
  }

  /**
   * One token's `a`: no bound is checked (a bound past the last port only
   * prints a warning), and a token of three or more parts reuses the previous
   * token's `a`.
   */
  function ItemsStep(k: PortRange.Token, prev: Option<seq<Item>>): Result<seq<Item>, InitError>
  {
    match k
    case Span(a, b) => Ok(Numbers(a, b))
    case NotNumeric => Err(NotANumber)
    case Single(t) => Ok([Verbatim(t)])
    case Malformed => if prev.Some? then Ok(prev.value) else Err(NoPreviousRange)
  }

  /** The loop `self.ports += a`, from the items gathered so far. */
  function ItemsFrom(ks: seq<PortRange.Token>, acc: seq<Item>, prev: Option<seq<Item>>): Result<seq<Item>, InitError>
    decreases |ks|
  {
    if ks == [] then Ok(acc)
    else
      match ItemsStep(ks[0], prev)
      case Err(e) => Err(e)
      case Ok(a) => ItemsFrom(ks[1..], acc + a, Some(a))
  }

  function Items(spec: string): Result<seq<Item>, InitError>
  {
    ItemsFrom(PortRange.Classified(Split(spec, ",")), [], None)
  }

  /** Python's `<=` on strings: code point by code point, a proper prefix first. */
  predicate StrLe(s: string, t: string)
    decreases |s|
  {
    s == [] || (t != [] && (s[0] < t[0] || (s[0] == t[0] && StrLe(s[1..], t[1..]))))
  }

  /**
   * The order `sorted()` uses on a list of one kind. Numbers are placed before
   * text only to make the relation total; a list that mixes them is never
   * sorted (see `Sorted`).
   */
  predicate ItemLe(x: Item, y: Item)
  {
    match (x, y)
    case (Number(a), Number(b)) => a <= b
    case (Verbatim(s), Verbatim(t)) => StrLe(s, t)
    case (Number(_), Verbatim(_)) => true
    case (Verbatim(_), Number(_)) => false
  }

  predicate AllNumbers(items: seq<Item>)
  {
    forall i :: 0 <= i < |items| ==> items[i].Number?
  }

  predicate AllVerbatim(items: seq<Item>)
  {
    forall i :: 0 <= i < |items| ==> items[i].Verbatim?
  }

  /**
   * `sorted(self.ports)`. Any correct comparison sort compares the two
   * neighbours of different kinds it must place, so a list holding both a
   * number and a string raises TypeError.
   */
  function Sorted(items: seq<Item>): Result<seq<Item>, InitError>
  {
    if AllNumbers(items) || AllVerbatim(items) then Ok(InsertionSort(items, ItemLe))
    else Err(Unorderable)
  }

  /** `'Gi1/0/{}'.format(x)`. */
  function Render(x: Item): string
  {
    match x
    case Number(n) => PortName(IntString(n))
    case Verbatim(s) => PortName(s)
  }

  function Rendered(items: seq<Item>): (r: seq<string>)
    ensures |r| == |items|
  {
    seq(|items|, i requires 0 <= i < |items| => Render(items[i]))
  }

  /** `self.ports` once the constructor has expanded, sorted and prefixed it. */
  function PortList(spec: string): Result<seq<string>, InitError>
  {
    match Items(spec)
    case Err(e) => Err(e)
    case Ok(items) =>
      match Sorted(items)
      case Err(e) => Err(e)
      case Ok(s) => Ok(Rendered(s))
  }

  /** `self.summary` after `self.summary[interface] = {...}` for each port in turn. */
  function SummaryOf(ports: seq<string>): (d: Dict<string, Entry>)
    ensures d.Valid()
  {
    if ports == [] then Empty()
    else SummaryOf(ports[..|ports| - 1]).Put(ports[|ports| - 1], Entry("", ""))
  }

  /** Building the summary of one more port puts that port's blank entry. */
  lemma SummaryOfNext(ports: seq<string>, i: int)
    requires 0 <= i < |ports|
    ensures SummaryOf(ports[..i + 1]) == SummaryOf(ports[..i]).Put(ports[i], Entry("", ""))
  {
    var init := ports[..i + 1];
    assert init[..|init| - 1] == ports[..i] && init[|init| - 1] == ports[i];
  }

  /** Every interface's regular-expression search found an address. */
  predicate AllFound(keys: seq<string>, found: string -> seq<string>)
  {
    forall k :: k in keys ==> found(k) != []
  }

  /** The summary once the first `j` interfaces have their MAC address. */
  function MacsUpTo(d: Dict<string, Entry>, found: string -> seq<string>, j: int): (r: Dict<string, Entry>)
    requires d.Valid() && 0 <= j <= |d.keys| && AllFound(d.keys[..j], found)
    ensures r.Valid() && r.keys == d.keys
  {
    Dict(d.keys, map k | k in d.values ::
      if k in d.keys[..j] then d.values[k].(mac := ColonGrouped(found(k)[0])) else d.values[k])
  }

  /** Every listed entry's MAC address has a readable serial number. */
  predicate SerialsFound(keys: seq<string>, values: map<string, Entry>, serialOf: string -> Option<string>)
  {
    forall k :: k in keys && k in values ==> serialOf(values[k].mac).Some?
  }

  /** The summary once the first `j` entries have their serial number. */
  function SerialsUpTo(d: Dict<string, Entry>, serialOf: string -> Option<string>, j: int): (r: Dict<string, Entry>)
    requires d.Valid() && 0 <= j <= |d.keys| && SerialsFound(d.keys[..j], d.values, serialOf)
    ensures r.Valid() && r.keys == d.keys
  {
    Dict(d.keys, map k | k in d.values ::
      if k in d.keys[..j] then d.values[k].(serial := serialOf(d.values[k].mac).value) else d.values[k])
  }

  /** The summary after `mac_address_table` and the serial loop, or where they stop. */
  function Filled(ports: seq<string>, found: string -> seq<string>, serialOf: string -> Option<string>): Result<Dict<string, Entry>, Failure>
  {
    var blank := SummaryOf(ports);
    var n := |blank.keys|;
    assert blank.keys[..n] == blank.keys;
    if !AllFound(blank.keys, found) then Err(NoMacFound)
    else
      var macs := MacsUpTo(blank, found, n);
      if !SerialsFound(macs.keys, macs.values, serialOf) then Err(NoSerialFound)
      else Ok(SerialsUpTo(macs, serialOf, n))
  }

  /** What the script prints with `pprint(summary)`, or where it stops. */
  function Report(spec: string, found: string -> seq<string>, serialOf: string -> Option<string>): Result<Dict<string, Entry>, Failure>
  {
    match PortList(spec)
    case Err(e) => Err(InitFailed(e))
    case Ok(ports) => Filled(ports, found, serialOf)
  }

  /** `LoginSwitch`: the switch's port list and the summary being filled in. */
  class LoginSwitch {
    var portRanges: seq<string>
    var ports: seq<string>
    var summary: Dict<string, Entry>

    /** The summary has one entry per interface of `ports` and no other. */
    ghost predicate Valid()
      reads this
    {
      summary.Valid() && forall p :: p in summary.values <==> p in ports
    }

    /**
     * The end of `__init__`: a blank entry for each interface in turn. The
     * expansion before it, which can raise, is `Open`.
     */
    constructor (tokens: seq<string>, sortedPorts: seq<string>)
      ensures portRanges == tokens && ports == sortedPorts
      ensures summary == SummaryOf(sortedPorts) && Valid()
    {
      portRanges := tokens;
      ports := sortedPorts;
      var d: Dict<string, Entry> := Empty();
      for i := 0 to |sortedPorts|
        invariant d == SummaryOf(sortedPorts[..i])
      {
        SummaryOfNext(sortedPorts, i);
        d := d.Put(sortedPorts[i], Entry("", ""));
      }
      assert sortedPorts[..|sortedPorts|] == sortedPorts;
      summary := d;
      SummaryOfCovers(sortedPorts);
    }

    /**
     * `LoginSwitch(switchdetails, port_ranges)`: splits the specification,
     * gathers each token's `a`, sorts, prefixes and builds the summary; the
     * error is the exception the constructor raises.
     */
    static method Open(spec: string) returns (r: Result<LoginSwitch, InitError>)
      ensures r.Err? ==> PortList(spec) == Err(r.error)
      ensures r.Ok? ==> fresh(r.value) && PortList(spec) == Ok(r.value.ports)
      ensures r.Ok? ==> r.value.portRanges == Split(spec, ",") && r.value.summary == SummaryOf(r.value.ports)
      ensures r.Ok? ==> r.value.Valid()
    {
      var tokens := Split(spec, ",");
      ghost var ks := PortRange.Classified(tokens);
      var items: seq<Item> := [];
      var a: Option<seq<Item>> := None;
      for i := 0 to |tokens|
        invariant ItemsFrom(ks[i..], items, a) == Items(spec)
      {
        assert ks[i..][0] == ks[i] && ks[i..][1..] == ks[i + 1..];
        var step := ItemsStep(PortRange.Classify(tokens[i]), a);
        if step.Err? {
          return Err(step.error);
        }
        a := Some(step.value);
        items := items + step.value;
      }
      assert ks[|tokens|..] == [];
      var sorted := Sorted(items);
      if sorted.Err? {
        return Err(sorted.error);
      }
      var ls := new LoginSwitch(tokens, Rendered(sorted.value));
      return Ok(ls);
    }

    /**
     * `mac_address_table`: each interface in turn gets the first address its
     * search found, regrouped with colons; an interface without one raises
     * IndexError, with the earlier interfaces already updated.
     */
    method MacAddressTable(found: string -> seq<string>) returns (ok: bool)
      requires Valid()
      modifies this
      ensures Valid() && ports == old(ports) && portRanges == old(portRanges)
      ensures ok <==> AllFound(old(summary.keys), found)
      ensures ok ==> summary == MacsUpTo(old(summary), found, |old(summary.keys)|)
      ensures !ok ==> exists j ::
        && 0 <= j < |old(summary.keys)| && found(old(summary.keys)[j]) == []
        && AllFound(old(summary.keys)[..j], found) && summary == MacsUpTo(old(summary), found, j)
    {
      ghost var d := summary;
      var table := summary;
      var keys := table.keys;
      MacsNone(d, found);
      ghost var stop := |keys|;
      ok := true;
      for i := 0 to |keys|
        modifies {}
        invariant keys == d.keys
        invariant AllFound(keys[..i], found)
        invariant table == MacsUpTo(d, found, i)
      {
        var iface := keys[i];
        var matches := found(iface);
        if matches == [] {
          ok, stop := false, i;
          break;
        }
        var mac := ColonGrouped(matches[0]);
        MacsStep(d, found, i);
        table := table.Put(iface, table.values[iface].(mac := mac));
      }
      summary := table;
      if ok {
        assert keys[..|keys|] == keys;
      } else {
        assert found(keys[stop]) == [];
      }
    }
  }

  /**
   * The main loop: each entry in turn gets the serial number the lookup
   * answers for its MAC address; an answer without one raises, with the
   * earlier entries already updated.
   */
  method FillSerials(gather: LoginSwitch, serialOf: string -> Option<string>) returns (ok: bool)
    requires gather.Valid()
    modifies gather
    ensures gather.Valid() && gather.ports == old(gather.ports) && gather.portRanges == old(gather.portRanges)
    ensures ok <==> SerialsFound(old(gather.summary.keys), old(gather.summary.values), serialOf)
    ensures ok ==> gather.summary == SerialsUpTo(old(gather.summary), serialOf, |old(gather.summary.keys)|)
    ensures !ok ==> exists j ::
      && 0 <= j < |old(gather.summary.keys)|
      && serialOf(old(gather.summary.values)[old(gather.summary.keys)[j]].mac).None?
      && SerialsFound(old(gather.summary.keys)[..j], old(gather.summary.values), serialOf)
      && gather.summary == SerialsUpTo(old(gather.summary), serialOf, j)
  {
    ghost var d := gather.summary;
    var summary := gather.summary;
    var keys := summary.keys;
    SerialsNone(d, serialOf);
    ghost var stop := |keys|;
    ok := true;
    for i := 0 to |keys|
      modifies {}
      invariant keys == d.keys
      invariant SerialsFound(keys[..i], d.values, serialOf)
      invariant summary == SerialsUpTo(d, serialOf, i)
    {
      var iface := keys[i];
      var entry := summary.values[iface];
      var serial := serialOf(entry.mac);
      if serial.None? {
        ok, stop := false, i;
        break;
      }
      SerialsStep(d, serialOf, i);
      summary := summary.Put(iface, entry.(serial := serial.value));
    }
    gather.summary := summary;
    if ok {
      assert keys[..|keys|] == keys;
    } else {
      assert serialOf(d.values[keys[stop]].mac).None?;
    }
  }

  /** The whole script, from the port specification to the printed summary. */
  method Gather(spec: string, found: string -> seq<string>, serialOf: string -> Option<string>)
    returns (r: Result<Dict<string, Entry>, Failure>)
    ensures r == Report(spec, found, serialOf)
  {
    var login := LoginSwitch.Open(spec);
    if login.Err? {
      return Err(InitFailed(login.error));
    }
    var gather := login.value;
    var ok := gather.MacAddressTable(found);
    if !ok {
      return Err(NoMacFound);
    }
    ok := FillSerials(gather, serialOf);
    if !ok {
      return Err(NoSerialFound);
    }
    return Ok(gather.summary);
  }

  lemma {:induction false} SummaryOfCovers(ports: seq<string>)
    ensures forall p :: p in SummaryOf(ports).values <==> p in ports
    ensures forall p :: p in SummaryOf(ports).values ==> SummaryOf(ports).values[p] == Entry("", "")
  {
    if ports != [] {
      var init := ports[..|ports| - 1];
      SummaryOfCovers(init);
      assert ports == init + [ports[|ports| - 1]];
    }
  }

  lemma MacsNone(d: Dict<string, Entry>, found: string -> seq<string>)
    requires d.Valid()
    ensures AllFound(d.keys[..0], found) && MacsUpTo(d, found, 0) == d
  {
    assert d.keys[..0] == [];
    assert MacsUpTo(d, found, 0).values == d.values;
  }

  /** Giving the next interface its MAC address extends the updated prefix by one. */
  lemma MacsStep(d: Dict<string, Entry>, found: string -> seq<string>, i: int)
    requires d.Valid() && 0 <= i < |d.keys| && AllFound(d.keys[..i], found) && found(d.keys[i]) != []
    ensures AllFound(d.keys[..i + 1], found)
    ensures var m, k := MacsUpTo(d, found, i), d.keys[i];
      m.Put(k, m.values[k].(mac := ColonGrouped(found(k)[0]))) == MacsUpTo(d, found, i + 1)
  {
    var k := d.keys[i];
    forall x | x in d.keys[..i + 1] ensures found(x) != [] {
      InPrefixNext(d.keys, i, x);
    }
    FreshKey(d, i);
    var m, n := MacsUpTo(d, found, i), MacsUpTo(d, found, i + 1);
    var v := m.values[k].(mac := ColonGrouped(found(k)[0]));
    m.PutExisting(k, v);
    assert m.values[k := v] == n.values by {
      forall x | x in n.values ensures x in m.values[k := v] && m.values[k := v][x] == n.values[x] {
        InPrefixNext(d.keys, i, x);
      }
    }
  }

  /** A key is not among the keys before it. */
  lemma FreshKey<V>(d: Dict<string, V>, i: int)
    requires d.Valid() && 0 <= i < |d.keys|
    ensures d.keys[i] !in d.keys[..i]
  {
  }

  /** Membership in a prefix one longer. */
  lemma InPrefixNext<T>(s: seq<T>, i: int, x: T)
    requires 0 <= i < |s|
    ensures x in s[..i + 1] <==> x in s[..i] || x == s[i]
  {
    assert s[..i + 1] == s[..i] + [s[i]];
  }

  lemma SerialsNone(d: Dict<string, Entry>, serialOf: string -> Option<string>)
    requires d.Valid()
    ensures SerialsFound(d.keys[..0], d.values, serialOf) && SerialsUpTo(d, serialOf, 0) == d
  {
    assert d.keys[..0] == [];
    assert SerialsUpTo(d, serialOf, 0).values == d.values;
  }

  /** Giving the next entry its serial number extends the updated prefix by one. */
  lemma SerialsStep(d: Dict<string, Entry>, serialOf: string -> Option<string>, i: int)
    requires d.Valid() && 0 <= i < |d.keys| && SerialsFound(d.keys[..i], d.values, serialOf)
    requires serialOf(d.values[d.keys[i]].mac).Some?
    ensures SerialsFound(d.keys[..i + 1], d.values, serialOf)
    ensures var m, k := SerialsUpTo(d, serialOf, i), d.keys[i];
      m.values[k] == d.values[k] &&
      m.Put(k, m.values[k].(serial := serialOf(d.values[k].mac).value)) == SerialsUpTo(d, serialOf, i + 1)
  {
    var k := d.keys[i];
    forall x | x in d.keys[..i + 1] && x in d.values ensures serialOf(d.values[x].mac).Some? {
      InPrefixNext(d.keys, i, x);
    }
    FreshKey(d, i);
    var m, n := SerialsUpTo(d, serialOf, i), SerialsUpTo(d, serialOf, i + 1);
    var v := m.values[k].(serial := serialOf(d.values[k].mac).value);
    m.PutExisting(k, v);
    assert m.values[k := v] == n.values by {
      forall x | x in n.values ensures x in m.values[k := v] && m.values[k := v][x] == n.values[x] {
        InPrefixNext(d.keys, i, x);
      }
    }
  }

  lemma {:induction false} StrLeTotal(s: string, t: string)
    ensures StrLe(s, t) || StrLe(t, s)
    decreases |s|
  {
    if s != [] && t != [] && s[0] == t[0] {
      StrLeTotal(s[1..], t[1..]);
    }
  }

  lemma {:induction false} StrLeTransitive(s: string, t: string, u: string)
    requires StrLe(s, t) && StrLe(t, u)
    ensures StrLe(s, u)
    decreases |s|
  {
    if s != [] && t != [] && u != [] && s[0] == t[0] && t[0] == u[0] {
      StrLeTransitive(s[1..], t[1..], u[1..]);
    }
  }

  lemma {:induction false} StrLeAntisymmetric(s: string, t: string)
    requires StrLe(s, t) && StrLe(t, s)
    ensures s == t
    decreases |s|
  {
    if s != [] {
      StrLeAntisymmetric(s[1..], t[1..]);
      assert s == [s[0]] + s[1..] && t == [t[0]] + t[1..];
    }
  }

  /** `ItemLe` is a total order: any two items compare, transitively, and only equal items both ways. */
  lemma ItemLeTotalOrder()
    ensures TotalPreorder(ItemLe)
    ensures forall x, y :: ItemLe(x, y) && ItemLe(y, x) ==> x == y
  {
    forall x: Item, y: Item ensures ItemLe(x, y) || ItemLe(y, x) {
      if x.Verbatim? && y.Verbatim? {
        StrLeTotal(x.s, y.s);
      }
    }
    forall x: Item, y: Item, z: Item | ItemLe(x, y) && ItemLe(y, z) ensures ItemLe(x, z) {
      if x.Verbatim? && y.Verbatim? && z.Verbatim? {
        StrLeTransitive(x.s, y.s, z.s);
      }
    }
    forall x: Item, y: Item | ItemLe(x, y) && ItemLe(y, x) ensures x == y {
      if x.Verbatim? && y.Verbatim? {
        StrLeAntisymmetric(x.s, y.s);
      }
    }
  }

  /**
   * `sorted()` succeeds exactly on lists of one kind, and then gives a
   * permutation in ascending order: numerically for numbers, by code point
   * for text.
   */
  lemma SortedOrders(items: seq<Item>)
    ensures Sorted(items).Ok? <==> AllNumbers(items) || AllVerbatim(items)
    ensures Sorted(items).Err? ==> Sorted(items).error == Unorderable
    ensures Sorted(items).Ok? ==>
      var r := Sorted(items).value;
      SortedBy(r, ItemLe) && multiset(r) == multiset(items)
    ensures AllNumbers(items) ==>
      var r := Sorted(items).value;
      AllNumbers(r) && forall i, j :: 0 <= i < j < |r| ==> r[i].n <= r[j].n
    ensures AllVerbatim(items) ==>
      var r := Sorted(items).value;
      AllVerbatim(r) && forall i, j :: 0 <= i < j < |r| ==> StrLe(r[i].s, r[j].s)
  {
    if Sorted(items).Ok? {
      var r := InsertionSort(items, ItemLe);
      ItemLeTotalOrder();
      InsertionSortSorted(items, ItemLe);
      forall i | 0 <= i < |r| ensures r[i] in items {
        assert r[i] in multiset(r);
      }
    }
  }

  /**
   * Any ascending permutation is the one `Sorted` gives: whichever algorithm
   * `sorted()` runs, its result is the same.
   */
  lemma {:induction false} SortedUnique(s: seq<Item>, t: seq<Item>)
    requires SortedBy(s, ItemLe) && SortedBy(t, ItemLe) && multiset(s) == multiset(t)
    ensures s == t
    decreases |s|
  {
    if s != [] {
      SameFirst(s, t);
      SameTails(s, t);
      SortedUnique(s[1..], t[1..]);
      assert s == [s[0]] + s[1..] && t == [t[0]] + t[1..];
    }
  }

  /** Past an equal first item, two ascending permutations of each other remain so. */
  lemma SameTails(s: seq<Item>, t: seq<Item>)
    requires SortedBy(s, ItemLe) && SortedBy(t, ItemLe) && multiset(s) == multiset(t)
    requires s != [] && t != [] && s[0] == t[0]
    ensures SortedBy(s[1..], ItemLe) && SortedBy(t[1..], ItemLe) && multiset(s[1..]) == multiset(t[1..])
  {
    SortedTail(s, ItemLe);
    SortedTail(t, ItemLe);
    TailMultiset(s);
    TailMultiset(t);
  }

  lemma TailMultiset<T>(s: seq<T>)
    requires s != []
    ensures multiset(s[1..]) == multiset(s) - multiset{s[0]}
  {
    assert s == [s[0]] + s[1..];
    assert multiset(s) == multiset{s[0]} + multiset(s[1..]);
  }

  /** Two ascending permutations of each other start with the same item. */
  lemma SameFirst(s: seq<Item>, t: seq<Item>)
    requires SortedBy(s, ItemLe) && SortedBy(t, ItemLe) && multiset(s) == multiset(t) && s != []
    ensures t != [] && s[0] == t[0]
  {
    assert s[0] in multiset(t);
    assert t[0] in multiset(s);
    var k :| 0 <= k < |s| && s[k] == t[0];
    var l :| 0 <= l < |t| && t[l] == s[0];
    assert ItemLe(s[0], t[0]) && ItemLe(t[0], s[0]) by {
      assert k == 0 || ItemLe(s[0], s[k]);
      assert l == 0 || ItemLe(t[0], t[l]);
      if k == 0 || l == 0 {
        ItemLeReflexive(s[0]);
      }
    }
    ItemLeAntisymmetric(s[0], t[0]);
  }

  lemma ItemLeReflexive(x: Item)
    ensures ItemLe(x, x)
  {
    if x.Verbatim? {
      StrLeTotal(x.s, x.s);
    }
  }

  lemma ItemLeAntisymmetric(x: Item, y: Item)
    requires ItemLe(x, y) && ItemLe(y, x)
    ensures x == y
  {
    if x.Verbatim? && y.Verbatim? {
      StrLeAntisymmetric(x.s, y.s);
    }
  }

  /** The numbers the `A-B` tokens give, one token after another. */
  function SpanNumbers(ks: seq<PortRange.Token>): (r: seq<Item>)
    requires forall k :: k in ks ==> k.Span?
    ensures AllNumbers(r)
  {
    if ks == [] then []
    else Numbers(ks[0].first, ks[0].stop) + SpanNumbers(ks[1..])
  }

  /** A number is among a range list's numbers exactly when one of its ranges holds it. */
  lemma {:induction false} SpanNumbersMembers(ks: seq<PortRange.Token>, n: int)
    requires forall k :: k in ks ==> k.Span?
    ensures Number(n) in SpanNumbers(ks) <==> exists k :: k in ks && k.first <= n < k.stop
  {
    if ks != [] {
      SpanNumbersMembers(ks[1..], n);
      var a := Numbers(ks[0].first, ks[0].stop);
      assert Number(n) in a <==> ks[0].first <= n < ks[0].stop by {
        if ks[0].first <= n < ks[0].stop {
          assert a[n - ks[0].first] == Number(n);
        }
      }
      assert forall k :: k in ks <==> k == ks[0] || k in ks[1..];
    }
  }

  /** Ranges only: every token's numbers are appended, whatever its bounds. */
  lemma {:induction false} ItemsFromSpans(ks: seq<PortRange.Token>, acc: seq<Item>, prev: Option<seq<Item>>)
    requires forall k :: k in ks ==> k.Span?
    ensures ItemsFrom(ks, acc, prev) == Ok(acc + SpanNumbers(ks))
  {
    if ks != [] {
      var a := Numbers(ks[0].first, ks[0].stop);
      assert ItemsStep(ks[0], prev) == Ok(a);
      assert forall k :: k in ks[1..] ==> k in ks;
      assert ItemsFrom(ks, acc, prev) == ItemsFrom(ks[1..], acc + a, Some(a));
      ItemsFromSpans(ks[1..], acc + a, Some(a));
      assert SpanNumbers(ks) == a + SpanNumbers(ks[1..]);
      assert acc + a + SpanNumbers(ks[1..]) == acc + SpanNumbers(ks);
    } else {
      assert acc + [] == acc;
    }
  }

  /** Only a three-or-more-part first token finds no earlier `a`; no sort happens before the loop ends. */
  lemma {:induction false} ItemsFromFaults(ks: seq<PortRange.Token>, acc: seq<Item>, prev: Option<seq<Item>>)
    ensures ItemsFrom(ks, acc, prev) != Err(Unorderable)
    ensures ItemsFrom(ks, acc, prev) == Err(NotANumber) ==> PortRange.NotNumeric in ks
    ensures ItemsFrom(ks, acc, prev) == Err(NoPreviousRange) <==>
      prev.None? && ks != [] && ks[0] == PortRange.Malformed
  {
    if ks != [] && ItemsStep(ks[0], prev).Ok? {
      var a := ItemsStep(ks[0], prev).value;
      ItemsFromFaults(ks[1..], acc + a, Some(a));
      assert forall k :: k in ks[1..] ==> k in ks;
    }
  }

  /** Each way the expansion can raise, traced to the token that causes it. */
  lemma ItemsFaults(spec: string)
    ensures Items(spec) != Err(Unorderable)
    ensures Items(spec) == Err(NotANumber) ==>
      exists t :: t in Split(spec, ",") && PortRange.Classify(t) == PortRange.NotNumeric
    ensures Items(spec) == Err(NoPreviousRange) <==>
      PortRange.Classify(Split(spec, ",")[0]) == PortRange.Malformed
  {
    var ts := Split(spec, ",");
    var ks := PortRange.Classified(ts);
    ItemsFromFaults(ks, [], None);
    if Items(spec) == Err(NotANumber) {
      var i :| 0 <= i < |ks| && ks[i] == PortRange.NotNumeric;
      assert ts[i] in ts;
    }
  }

  /**
   * A token with a non-numeric bound raises ValueError once the loop reaches
   * it: when no earlier token raises, `Items` fails with `NotANumber`.
   */
  lemma {:induction false} ItemsFromFirstNotANumber(ks: seq<PortRange.Token>, i: int, acc: seq<Item>, prev: Option<seq<Item>>)
    requires 0 <= i < |ks| && ks[i] == PortRange.NotNumeric
    requires forall j :: 0 <= j < i ==> ks[j] != PortRange.NotNumeric
    requires i == 0 || prev.Some? || ks[0] != PortRange.Malformed
    ensures ItemsFrom(ks, acc, prev) == Err(NotANumber)
    decreases i
  {
    if i > 0 {
      var a := ItemsStep(ks[0], prev).value;
      assert ks[1..][i - 1] == ks[i];
      ItemsFromFirstNotANumber(ks[1..], i - 1, acc + a, Some(a));
    }
  }

  /**
   * The same for the specification: the first comma-separated token with a
   * non-numeric bound, unless a leading three-part token fails first, makes
   * `__init__` raise ValueError, and no port list is made.
   */
  lemma ItemsNotANumber(spec: string, i: int)
    requires 0 <= i < |Split(spec, ",")|
    requires PortRange.Classify(Split(spec, ",")[i]) == PortRange.NotNumeric
    requires forall j :: 0 <= j < i ==> PortRange.Classify(Split(spec, ",")[j]) != PortRange.NotNumeric
    requires i == 0 || PortRange.Classify(Split(spec, ",")[0]) != PortRange.Malformed
    ensures Items(spec) == Err(NotANumber)
    ensures PortList(spec) == Err(NotANumber)
  {
    var ks := PortRange.Classified(Split(spec, ","));
    ItemsFromFirstNotANumber(ks, i, [], None);
  }

  /** Rendering numbers gives interface names that read back as those numbers. */
  lemma RenderedNumbers(r: seq<Item>)
    requires AllNumbers(r)
    ensures forall i :: 0 <= i < |r| ==> PortNumber(Rendered(r)[i]) == Some(r[i].n)
  {
    forall i | 0 <= i < |r| ensures PortNumber(Rendered(r)[i]) == Some(r[i].n) {
      PortNumberOfName(r[i].n);
    }
  }

  /** A specification of `A-B` ranges only gives every number of every range in turn. */
  lemma ItemsOfRanges(spec: string)
    requires forall t :: t in Split(spec, ",") ==> PortRange.Classify(t).Span?
    ensures forall k :: k in PortRange.Classified(Split(spec, ",")) ==> k.Span?
    ensures Items(spec) == Ok(SpanNumbers(PortRange.Classified(Split(spec, ","))))
  {
    var ts := Split(spec, ",");
    var ks := PortRange.Classified(ts);
    forall k | k in ks ensures k.Span? {
      var i :| 0 <= i < |ks| && ks[i] == k;
      assert ts[i] in ts;
    }
    ItemsFromSpans(ks, [], None);
    assert [] + SpanNumbers(ks) == SpanNumbers(ks);
  }

  /**
   * Sorted and prefixed, numbers become interfaces in ascending port order:
   * the i-th interface reads back as the i-th sorted number, and the sorted
   * numbers are the given ones, each as often as it was given.
   */
  lemma NumbersAscend(nums: seq<Item>)
    requires AllNumbers(nums)
    ensures Sorted(nums).Ok?
    ensures var r := Sorted(nums).value; var ports := Rendered(r);
      && multiset(r) == multiset(nums) && AllNumbers(r)
      && |ports| == |nums|
      && (forall i :: 0 <= i < |ports| ==> PortNumber(ports[i]) == Some(r[i].n))
      && (forall i, j :: 0 <= i < j < |ports| ==> PortNumber(ports[i]).value <= PortNumber(ports[j]).value)
      && (forall n :: Number(n) in nums <==> exists i :: 0 <= i < |ports| && PortNumber(ports[i]) == Some(n))
  {
    SortedOrders(nums);
    var r := Sorted(nums).value;
    assert |r| == |nums| by {
      assert |multiset(r)| == |multiset(nums)|;
    }
    RenderedAscending(r);
    forall n ensures Number(n) in nums <==> Number(n) in r {
      assert Number(n) in nums <==> Number(n) in multiset(r);
    }
  }

  lemma RenderedAscending(r: seq<Item>)
    requires AllNumbers(r) && forall i, j :: 0 <= i < j < |r| ==> r[i].n <= r[j].n
    ensures var ports := Rendered(r);
      && (forall i :: 0 <= i < |ports| ==> PortNumber(ports[i]) == Some(r[i].n))
      && (forall n :: Number(n) in r <==> exists i :: 0 <= i < |ports| && PortNumber(ports[i]) == Some(n))
  {
    RenderedNumbers(r);
    forall n | Number(n) in r ensures exists i :: 0 <= i < |r| && PortNumber(Rendered(r)[i]) == Some(n) {
      var i :| 0 <= i < |r| && r[i] == Number(n);
      assert PortNumber(Rendered(r)[i]) == Some(n);
    }
  }

  /**
   * A specification of `A-B` ranges only gives every number of every range,
   * repeats included and no bound checked, as interfaces in ascending port
   * order.
   */
  lemma RangesAscend(spec: string)
    requires forall t :: t in Split(spec, ",") ==> PortRange.Classify(t).Span?
    ensures forall k :: k in PortRange.Classified(Split(spec, ",")) ==> k.Span?
    ensures PortList(spec).Ok?
    ensures var nums := SpanNumbers(PortRange.Classified(Split(spec, ",")));
      Sorted(nums).Ok? && PortList(spec).value == Rendered(Sorted(nums).value)
    ensures var ports, nums := PortList(spec).value, SpanNumbers(PortRange.Classified(Split(spec, ",")));
      var r := Sorted(nums).value;
      && multiset(r) == multiset(nums) && AllNumbers(r)
      && |ports| == |nums|
      && (forall i :: 0 <= i < |ports| ==> PortNumber(ports[i]) == Some(r[i].n))
      && (forall i, j :: 0 <= i < j < |ports| ==> PortNumber(ports[i]).value <= PortNumber(ports[j]).value)
      && (forall n :: Number(n) in nums <==> exists i :: 0 <= i < |ports| && PortNumber(ports[i]) == Some(n))
  {
    ItemsOfRanges(spec);
    NumbersAscend(SpanNumbers(PortRange.Classified(Split(spec, ","))));
  }

  /**
   * A single range past the last port is expanded in full (the script only
   * prints a warning), where the address-replacement script refuses it.
   */
  lemma RangePastLastPort(spec: string)
    requires ',' !in spec
    requires PortRange.Classify(spec).Span? && PortRange.Classify(spec).stop > PortRange.PORT_LIMIT
    ensures Items(spec) == Ok(Numbers(PortRange.Classify(spec).first, PortRange.Classify(spec).stop))
    ensures PortRange.Expand(spec) == PortRange.NonExistentPort
  {
    SplitWithoutSeparator(spec, ',');
    var k := PortRange.Classify(spec);
    assert PortRange.Classified([spec]) == [k];
    assert [k][1..] == [];
    var a := Numbers(k.first, k.stop);
    assert ItemsFrom([k], [], None) == ItemsFrom([], [] + a, Some(a));
    assert [] + a == a;
  }

  /** Two comma-free tokens are the specification's two tokens. */
  lemma TwoTokens(spec: string, t: string, u: string)
    requires ',' !in t && ',' !in u && spec == t + "," + u
    ensures Items(spec) == ItemsFrom([PortRange.Classify(t), PortRange.Classify(u)], [], None)
  {
    SplitAtFirst(t, u, ',');
    SplitWithoutSeparator(u, ',');
    assert Split(spec, ",") == [t, u];
    assert PortRange.Classified([t, u]) == [PortRange.Classify(t), PortRange.Classify(u)];
  }

  /** A non-empty range followed by a single port cannot be sorted: the script raises TypeError. */
  lemma RangeThenSinglePort(spec: string, t: string, u: string)
    requires ',' !in t && ',' !in u && '-' !in u && spec == t + "," + u
    requires PortRange.Classify(t).Span? && PortRange.Classify(t).first < PortRange.Classify(t).stop
    ensures PortList(spec) == Err(Unorderable)
  {
    TwoTokens(spec, t, u);
    PortRange.ClassifySingle(u);
    var k, l := PortRange.Classify(t), PortRange.Classify(u);
    var a := Numbers(k.first, k.stop);
    assert [k, l][1..] == [l] && [l][1..] == [];
    assert ItemsFrom([k, l], [], None) == ItemsFrom([l], [] + a, Some(a));
    assert ItemsFrom([l], [] + a, Some(a)) == ItemsFrom([], [] + a + [Verbatim(u)], Some([Verbatim(u)]));
    var items := [] + a + [Verbatim(u)];
    assert items[0].Number? && items[|items| - 1].Verbatim?;
  }

  /** `"1-3,5"` mixes numbers with text and raises TypeError. */
  lemma RangeAndPortExample(spec: string)
    requires spec == "1-3,5"
    ensures PortList(spec) == Err(Unorderable)
  {
    var t, u, a, b := "1-3", "5", "1", "3";
    assert spec == t + "," + u && t == a + "-" + b;
    assert IntString(1) == a && IntString(3) == b;
    ParseIntString(1);
    ParseIntString(3);
    PortRange.SplitTwoParts(t, a, b);
    PortRange.ClassifyTwoParts(t, a, b);
    RangeThenSinglePort(spec, t, u);
  }

  /** Single ports are sorted as text, not as numbers. */
  lemma SinglePortsSortAsText(spec: string, t: string, u: string)
    requires ',' !in t && ',' !in u && '-' !in t && '-' !in u && spec == t + "," + u
    requires StrLe(t, u)
    ensures PortList(spec) == Ok([PortName(t), PortName(u)])
  {
    TwoTokens(spec, t, u);
    PortRange.ClassifySingle(t);
    PortRange.ClassifySingle(u);
    TwoSingles(t, u);
    TwoTextSorted(t, u);
    var items := [Verbatim(t), Verbatim(u)];
    assert Rendered(items) == [PortName(t), PortName(u)];
  }

  lemma TwoSingles(t: string, u: string)
    ensures ItemsFrom([PortRange.Single(t), PortRange.Single(u)], [], None) == Ok([Verbatim(t), Verbatim(u)])
  {
    var k, l := PortRange.Single(t), PortRange.Single(u);
    assert [k, l][1..] == [l] && [l][1..] == [];
    assert ItemsStep(k, None) == Ok([Verbatim(t)]);
    assert ItemsFrom([k, l], [], None) == ItemsFrom([l], [] + [Verbatim(t)], Some([Verbatim(t)]));
    assert [] + [Verbatim(t)] == [Verbatim(t)];
    assert ItemsStep(l, Some([Verbatim(t)])) == Ok([Verbatim(u)]);
    assert ItemsFrom([l], [Verbatim(t)], Some([Verbatim(t)])) ==
      ItemsFrom([], [Verbatim(t)] + [Verbatim(u)], Some([Verbatim(u)]));
    assert [Verbatim(t)] + [Verbatim(u)] == [Verbatim(t), Verbatim(u)];
  }

  lemma TwoTextSorted(t: string, u: string)
    requires StrLe(t, u)
    ensures Sorted([Verbatim(t), Verbatim(u)]) == Ok([Verbatim(t), Verbatim(u)])
  {
    var items := [Verbatim(t), Verbatim(u)];
    assert AllVerbatim(items);
    assert items[1..] == [Verbatim(u)];
    assert InsertionSort([Verbatim(u)], ItemLe) == [Verbatim(u)] by {
      assert [Verbatim(u)][1..] == [];
      assert InsertionSort([], ItemLe) == [];
      assert Insert(Verbatim(u), [], ItemLe) == [Verbatim(u)];
    }
    assert ItemLe(Verbatim(t), Verbatim(u));
    assert Insert(Verbatim(t), [Verbatim(u)], ItemLe) == [Verbatim(t)] + [Verbatim(u)];
    assert InsertionSort(items, ItemLe) == Insert(Verbatim(t), [Verbatim(u)], ItemLe);
    assert [Verbatim(t)] + [Verbatim(u)] == items;
    assert Sorted(items) == Ok(InsertionSort(items, ItemLe));
  }

  /** `"10,9"` lists `Gi1/0/10` before `Gi1/0/9`. */
  lemma TenBeforeNine(spec: string)
    requires spec == "10,9"
    ensures PortList(spec) == Ok([PortName("10"), PortName("9")])
  {
    var t, u := "10", "9";
    assert spec == t + "," + u;
    assert StrLe(t, u);
    SinglePortsSortAsText(spec, t, u);
  }

  /**
   * The printed summary: one entry per interface, each holding the first
   * address found for it, regrouped with colons, and the serial number looked
   * up for that address; it is printed exactly when every interface has both.
   */
  lemma FilledEntries(ports: seq<string>, found: string -> seq<string>, serialOf: string -> Option<string>)
    ensures Filled(ports, found, serialOf).Ok? <==>
      forall p :: p in ports ==> found(p) != [] && serialOf(ColonGrouped(found(p)[0])).Some?
    ensures Filled(ports, found, serialOf) == Err(NoMacFound) <==> exists p :: p in ports && found(p) == []
    ensures Filled(ports, found, serialOf).Ok? ==>
      var d := Filled(ports, found, serialOf).value;
      && d.Valid() && (forall p :: p in d.values <==> p in ports)
      && forall p :: p in d.values ==>
        d.values[p] == Entry(ColonGrouped(found(p)[0]), serialOf(ColonGrouped(found(p)[0])).value)
  {
    var blank := SummaryOf(ports);
    SummaryOfCovers(ports);
    assert forall p :: p in blank.keys <==> p in ports;
    if AllFound(blank.keys, found) {
      MacsAll(blank, found);
      var macs := MacsUpTo(blank, found, |blank.keys|);
      if SerialsFound(macs.keys, macs.values, serialOf) {
        SerialsAll(macs, serialOf);
      }
    }
  }

  /** With every interface reached, each entry has its MAC address. */
  lemma MacsAll(d: Dict<string, Entry>, found: string -> seq<string>)
    requires d.Valid() && AllFound(d.keys, found)
    ensures d.keys[..|d.keys|] == d.keys
    ensures var m := MacsUpTo(d, found, |d.keys|);
      forall p :: p in m.values ==> p in d.values && m.values[p] == d.values[p].(mac := ColonGrouped(found(p)[0]))
  {
    assert d.keys[..|d.keys|] == d.keys;
  }

  /** With every entry reached, each has its serial number. */
  lemma SerialsAll(d: Dict<string, Entry>, serialOf: string -> Option<string>)
    requires d.Valid() && SerialsFound(d.keys, d.values, serialOf)
    ensures d.keys[..|d.keys|] == d.keys
    ensures var m := SerialsUpTo(d, serialOf, |d.keys|);
      forall p :: p in m.values ==> p in d.values && m.values[p] == d.values[p].(serial := serialOf(d.values[p].mac).value)
  {
    assert d.keys[..|d.keys|] == d.keys;
  }
}
