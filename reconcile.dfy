/**
 * The main program of the copy-and-replace script: read the port
 * specification, the clipboard's list of old access points and the switch's
 * MAC table, ask the inventory server for each AP's `baseRadioMac`, and write
 * `<site>.csv` with one line `host,oldMac,host,newMac` per old/new pair.
 *
 * The inventory server is a pair of lookups (by AP name and by Ethernet MAC)
 * given as parameters; the switch's MAC table is given as the list of its
 * static entries. The program ends in one of three ways: the CSV lines are
 * written, `sys.exit()` is called after a message, or an exception escapes.
 */
module Reconcile {
  import opened Wrappers
  import opened Text
  import opened Grouping
  import opened MacAddress
  import opened OrderedDict
  import opened PortRange
  import opened PortTable

  /** One AP as the server reports it: `(apName, baseRadioMac)`. */
  datatype ApRecord = ApRecord(apName: string, baseRadioMac: string)

  /** The `sys.exit()` calls, each after its message. */
  datatype Exit =
    | InvalidNumbers          // port_range gave 'IntFault'
    | InvalidRange            // port_range gave 'IndexFault'
    | ClipboardExceedsPorts
    | PortsExceedClipboard
    | ServerError             // prime() returned False (an HTTP error)
    | NoApOnSwitch
    | NoApOnGivenPorts

  /** The exceptions that escape and end the program. */
  datatype Crash =
    | RangeUnbound            // UnboundLocalError inside port_range
    | NoClipboardLines        // IndexError on ap[0]
    | EmptyServerResult       // IndexError on result[0]
    | PortWithoutNumber       // ValueError from int() inside the switch sort

  datatype Outcome =
    | Written(fileName: string, lines: seq<string>)
    | Exited(exit: Exit)
    | Crashed(crash: Crash)

  /**
   * What the variable `port_ranges` holds once the sentinels that stop the
   * program are handled: the list of names, or the string 'NonExistentPort',
   * which the program goes on with.
   */
  datatype Requested = Names(names: seq<string>) | Sentinel(text: string)

  const NON_EXISTENT_PORT: string := "NonExistentPort"

  /** `len(port_ranges)`: the number of names, or the length of the sentinel string. */
  function Size(req: Requested): nat
  {
    match req
    case Names(ns) => |ns|
    case Sentinel(t) => |t|
  }

  /** `interface in port_ranges`: list membership, or a substring test on the sentinel. */
  predicate Contains(req: Requested, iface: string)
  {
    match req
    case Names(ns) => iface in ns
    case Sentinel(t) => IsSubstring(iface, t)
  }

  /** The port specification's result, with the sentinels that stop the program. */
  function Requests(spec: string): (r: Result<Requested, Outcome>)
    ensures r.Err? ==> !r.error.Written?
  {
    match Expand(spec)
    case Ports(ns) => Ok(Names(ns))
    case IntFault => Err(Exited(InvalidNumbers))
    case IndexFault => Err(Exited(InvalidRange))
    case NonExistentPort => Ok(Sentinel(NON_EXISTENT_PORT))
    case UnboundRange => Err(Crashed(RangeUnbound))
  }

  /** `[line for line in pieces if not line == '']`. */
  function NonEmpty(pieces: seq<string>): (r: seq<string>)
    ensures |r| <= |pieces|
  {
    if pieces == [] then []
    else (if pieces[0] == "" then [] else [pieces[0]]) + NonEmpty(pieces[1..])
  }

  /** Filtering a list extended by one piece extends the kept lines by that piece, unless it is empty. */
  lemma {:induction false} NonEmptyAppend(pieces: seq<string>, p: string)
    ensures NonEmpty(pieces + [p]) == NonEmpty(pieces) + (if p == "" then [] else [p])
    decreases |pieces|
  {
    if pieces == [] {
      assert [] + [p] == [p];
    } else {
      assert (pieces + [p])[1..] == pieces[1..] + [p];
      NonEmptyAppend(pieces[1..], p);
    }
  }

  /** Every non-empty piece is kept as often as it occurs, and no empty one is. */
  lemma {:induction false} NonEmptyCounts(pieces: seq<string>)
    ensures multiset(NonEmpty(pieces)) == multiset(pieces)["" := 0]
    decreases |pieces|
  {
    if pieces != [] {
      NonEmptyCounts(pieces[1..]);
      assert pieces == [pieces[0]] + pieces[1..];
      assert multiset(pieces) == multiset([pieces[0]]) + multiset(pieces[1..]);
    }
  }

  /** The kept lines are exactly the non-empty pieces. */
  lemma {:induction false} NonEmptyMembers(pieces: seq<string>)
    ensures forall l :: l in NonEmpty(pieces) <==> l in pieces && l != ""
  {
    if pieces != [] {
      NonEmptyMembers(pieces[1..]);
      assert pieces == [pieces[0]] + pieces[1..];
    }
  }

  /** The clipboard's lines, one AP host name each, blank lines dropped. */
  function ClipboardLines(data: string): seq<string>
  {
    NonEmpty(Split(data, "\r\n"))
  }

  /** The site name: the first host name with its digits removed. */
  function SiteName(host: string): string
  {
    Without(host, IsDigit)
  }

  /** `Reinv.prime`: the records reported for a query, adjacent repeats collapsed; None on an HTTP error. */
  function Prime(lookup: string -> Option<seq<ApRecord>>, query: string): Option<seq<ApRecord>>
  {
    match lookup(query)
    case None => None
    case Some(rs) => Some(Dedup(rs))
  }

  /** Dropping repeats never changes which record comes first, or whether there is one. */
  lemma PrimeFirst(lookup: string -> Option<seq<ApRecord>>, query: string)
    ensures Prime(lookup, query).None? <==> lookup(query).None?
    ensures Prime(lookup, query).Some? ==>
      (Prime(lookup, query).value == [] <==> lookup(query).value == []) &&
      (Prime(lookup, query).value != [] ==> Prime(lookup, query).value[0] == lookup(query).value[0])
  {
  }

  /** `result = get.prime(...)`, then `result[0]`: the first record, or how the program ends. */
  function FirstRecord(lookup: string -> Option<seq<ApRecord>>, query: string): (r: Result<ApRecord, Outcome>)
    ensures r.Err? ==> !r.error.Written?
  {
    match Prime(lookup, query)
    case None => Err(Exited(ServerError))
    case Some(rs) => if rs == [] then Err(Crashed(EmptyServerResult)) else Ok(rs[0])
  }

  /** The first loop: `existing_ap[apName] = baseRadioMac` for each clipboard line. */
  function OldAps(lines: seq<string>, byName: string -> Option<seq<ApRecord>>, d: Dict<string, string>)
    : (r: Result<Dict<string, string>, Outcome>)
    requires d.Valid()
    ensures r.Ok? ==> r.value.Valid() && |r.value.keys| <= |d.keys| + |lines|
    ensures r.Err? ==> !r.error.Written?
    decreases |lines|
  {
    if lines == [] then Ok(d)
    else
      match FirstRecord(byName, lines[0])
      case Err(o) => Err(o)
      case Ok(ap) => OldAps(lines[1..], byName, d.Put(ap.apName, ap.baseRadioMac))
  }

  /**
   * One turn of the second loop: a requested interface is looked up by its
   * regrouped MAC and `new_ap[baseRadioMac] = interface`; others are skipped.
   */
  function NewApStep(b: Binding, req: Requested, byEthernet: string -> Option<seq<ApRecord>>, d: Dict<string, string>)
    : (r: Result<Dict<string, string>, Outcome>)
    requires d.Valid()
    ensures r.Ok? ==> r.value.Valid() && |r.value.keys| <= |d.keys| + 1
    ensures r.Err? ==> !r.error.Written?
    ensures !Contains(req, b.iface) ==> r == Ok(d)
    ensures Contains(req, b.iface) ==>
      (r.Ok? <==> FirstRecord(byEthernet, ColonGrouped(b.mac)).Ok?) &&
      (r.Ok? ==> r.value == d.Put(FirstRecord(byEthernet, ColonGrouped(b.mac)).value.baseRadioMac, b.iface))
  {
    if Contains(req, b.iface) then
      match FirstRecord(byEthernet, ColonGrouped(b.mac))
      case Err(o) => Err(o)
      case Ok(ap) => Ok(d.Put(ap.baseRadioMac, b.iface))
    else Ok(d)
  }

  /**
   * The second loop over the sorted table. The emptiness test sits inside the
   * loop, so the program stops as soon as a turn ends with `new_ap` still empty.
   */
  function NewAps(ports: seq<Binding>, req: Requested, byEthernet: string -> Option<seq<ApRecord>>, d: Dict<string, string>)
    : (r: Result<Dict<string, string>, Outcome>)
    requires d.Valid()
    ensures r.Ok? ==> r.value.Valid() && |r.value.keys| <= |d.keys| + |ports|
    ensures r.Err? ==> !r.error.Written?
    decreases |ports|
  {
    if ports == [] then Ok(d)
    else
      match NewApStep(ports[0], req, byEthernet, d)
      case Err(o) => Err(o)
      case Ok(d') =>
        if d'.IsEmpty() then Err(Exited(NoApOnGivenPorts))
        else NewAps(ports[1..], req, byEthernet, d')
  }

  /** `'{},{},{},{}\n'.format(hostname, old_mac, hostname, new_mac)`. */
  function CsvLine(host: string, oldMac: string, newMac: string): string
  {
    host + "," + oldMac + "," + host + "," + newMac + "\n"
  }

  function Min(a: int, b: int): int
  {
    if a < b then a else b
  }

  /** The lines written for `zip(existing_ap.items(), new_ap.items())`. */
  function CsvLines(olds: seq<(string, string)>, news: seq<(string, string)>): (r: seq<string>)
    ensures |r| == Min(|olds|, |news|)
  {
    seq(Min(|olds|, |news|), i requires 0 <= i < Min(|olds|, |news|) => CsvLine(olds[i].0, olds[i].1, news[i].0))
  }

  /** The whole program, from its inputs to the way it ends. */
  function Reconcile(spec: string, data: string, byName: string -> Option<seq<ApRecord>>,
                     byEthernet: string -> Option<seq<ApRecord>>, table: seq<Binding>): Outcome
  {
    match Requests(spec)
    case Err(o) => o
    case Ok(req) =>
      var lines := ClipboardLines(data);
      if |lines| > Size(req) then Exited(ClipboardExceedsPorts)
      else if |lines| < Size(req) then Exited(PortsExceedClipboard)
      else if lines == [] then Crashed(NoClipboardLines)
      else
        match OldAps(lines, byName, Empty())
        case Err(o) => o
        case Ok(olds) => AfterOldAps(SiteName(lines[0]), olds, req, byEthernet, table)
  }

  /** The program from the switch query on, once the old APs are known. */
  function AfterOldAps(site: string, olds: Dict<string, string>, req: Requested,
                       byEthernet: string -> Option<seq<ApRecord>>, table: seq<Binding>): Outcome
    requires olds.Valid()
  {
    if |table| >= 2 && !AllNumbered(table) then Crashed(PortWithoutNumber)
    else
      var sorted := SortByPort(table);
      if sorted == [] then Exited(NoApOnSwitch)
      else
      match NewAps(sorted, req, byEthernet, Empty())
      case Err(o) => o
      case Ok(news) => Written(site + ".csv", CsvLines(olds.Items(), news.Items()))
  }

  /** The first loop, one clipboard line at a time. */
  method GatherOld(lines: seq<string>, byName: string -> Option<seq<ApRecord>>)
    returns (r: Result<Dict<string, string>, Outcome>)
    ensures r == OldAps(lines, byName, Empty())
  {
    var existing: Dict<string, string> := Empty();
    for i := 0 to |lines|
      invariant existing.Valid()
      invariant OldAps(lines[i..], byName, existing) == OldAps(lines, byName, Empty())
    {
      assert lines[i..][0] == lines[i] && lines[i..][1..] == lines[i + 1..];
      var result := Prime(byName, lines[i]);
      if result.None? {
        return Err(Exited(ServerError));
      }
      if result.value == [] {
        return Err(Crashed(EmptyServerResult));
      }
      existing := existing.Put(result.value[0].apName, result.value[0].baseRadioMac);
    }
    assert lines[|lines|..] == [];
    return Ok(existing);
  }

  /** The second loop over the sorted table, with its emptiness test after every turn. */
  method GatherNew(ports: seq<Binding>, req: Requested, byEthernet: string -> Option<seq<ApRecord>>)
    returns (r: Result<Dict<string, string>, Outcome>)
    ensures r == NewAps(ports, req, byEthernet, Empty())
  {
    var newAp: Dict<string, string> := Empty();
    for i := 0 to |ports|
      invariant newAp.Valid()
      invariant NewAps(ports[i..], req, byEthernet, newAp) == NewAps(ports, req, byEthernet, Empty())
    {
      assert ports[i..][0] == ports[i] && ports[i..][1..] == ports[i + 1..];
      var ethernet, iface := ports[i].mac, ports[i].iface;
      if Contains(req, iface) {
        var result := Prime(byEthernet, ColonGrouped(ethernet));
        if result.None? {
          return Err(Exited(ServerError));
        }
        if result.value == [] {
          return Err(Crashed(EmptyServerResult));
        }
        newAp := newAp.Put(result.value[0].baseRadioMac, iface);
      }
      if newAp.IsEmpty() {
        return Err(Exited(NoApOnGivenPorts));
      }
    }
    assert ports[|ports|..] == [];
    return Ok(newAp);
  }

  /** The CSV writing loop over the two dictionaries' items, side by side. */
  method WriteCsv(olds: seq<(string, string)>, news: seq<(string, string)>) returns (lines: seq<string>)
    ensures lines == CsvLines(olds, news)
  {
    lines := [];
    for i := 0 to Min(|olds|, |news|)
      invariant lines == CsvLines(olds[..i], news[..i])
    {
      assert CsvLines(olds[..i + 1], news[..i + 1]) == CsvLines(olds[..i], news[..i]) + [CsvLine(olds[i].0, olds[i].1, news[i].0)];
      lines := lines + [CsvLine(olds[i].0, olds[i].1, news[i].0)];
    }
    assert CsvLines(olds[..Min(|olds|, |news|)], news[..Min(|olds|, |news|)]) == CsvLines(olds, news);
  }

  /** The main program: every stage in the order the script runs it. */
  method Run(spec: string, data: string, byName: string -> Option<seq<ApRecord>>,
             byEthernet: string -> Option<seq<ApRecord>>, table: seq<Binding>) returns (out: Outcome)
    ensures out == Reconcile(spec, data, byName, byEthernet, table)
  {
    var portRanges := ExpandPorts(spec);
    var req: Requested;
    match portRanges {
      case IntFault => return Exited(InvalidNumbers);
      case IndexFault => return Exited(InvalidRange);
      case UnboundRange => return Crashed(RangeUnbound);
      case NonExistentPort => req := Sentinel(NON_EXISTENT_PORT);
      case Ports(ns) => req := Names(ns);
    }
    var ap := ClipboardLines(data);
    if |ap| > Size(req) {
      return Exited(ClipboardExceedsPorts);
    } else if |ap| < Size(req) {
      return Exited(PortsExceedClipboard);
    }
    if ap == [] {
      return Crashed(NoClipboardLines);
    }
    var sitename := SiteName(ap[0]);
    var existing := GatherOld(ap, byName);
    if existing.Err? {
      return existing.error;
    }
    out := FromSwitch(sitename, existing.value, req, byEthernet, table);
  }

  /** The program from the switch query on. */
  method FromSwitch(sitename: string, existing: Dict<string, string>, req: Requested,
                    byEthernet: string -> Option<seq<ApRecord>>, table: seq<Binding>) returns (out: Outcome)
    requires existing.Valid()
    ensures out == AfterOldAps(sitename, existing, req, byEthernet, table)
  {
    var switchTable := new Binding[|table|](i requires 0 <= i < |table| => table[i]);
    assert switchTable[..] == table;
    var ok := BubbleSort(switchTable);
    if !ok {
      return Crashed(PortWithoutNumber);
    }
    var newApEthernet := switchTable[..];
    if newApEthernet == [] {
      return Exited(NoApOnSwitch);
    }
    var newAp := GatherNew(newApEthernet, req, byEthernet);
    if newAp.Err? {
      return newAp.error;
    }
    var lines := WriteCsv(existing.Items(), newAp.value.Items());
    return Written(sitename + ".csv", lines);
  }

  /** The site name has no digits left, and a name without digits is its own site name. */
  lemma SiteNameDigitFree(host: string)
    ensures forall i :: 0 <= i < |SiteName(host)| ==> !IsDigit(SiteName(host)[i])
    ensures SiteName(host) == host <==> forall i :: 0 <= i < |host| ==> !IsDigit(host[i])
  {
    WithoutDrops(host, IsDigit);
    WithoutFixpoint(host, IsDigit);
  }

  /** The clipboard must hold exactly as many lines as `port_ranges` has entries. */
  lemma ClipboardMustMatchPorts(spec: string, data: string, byName: string -> Option<seq<ApRecord>>,
                                byEthernet: string -> Option<seq<ApRecord>>, table: seq<Binding>)
    requires Requests(spec).Ok?
    ensures |ClipboardLines(data)| > Size(Requests(spec).value) ==>
      Reconcile(spec, data, byName, byEthernet, table) == Exited(ClipboardExceedsPorts)
    ensures |ClipboardLines(data)| < Size(Requests(spec).value) ==>
      Reconcile(spec, data, byName, byEthernet, table) == Exited(PortsExceedClipboard)
  {
  }

  /**
   * What a written CSV implies about the inputs: the ports were accepted, the
   * clipboard held one line per port, every switch entry had a port number, the
   * file is named after the first line's site, and there is at most one line per
   * clipboard line and per switch entry.
   */
  lemma WrittenMeans(spec: string, data: string, byName: string -> Option<seq<ApRecord>>,
                     byEthernet: string -> Option<seq<ApRecord>>, table: seq<Binding>)
    requires Reconcile(spec, data, byName, byEthernet, table).Written?
    ensures Requests(spec).Ok? && |ClipboardLines(data)| == Size(Requests(spec).value)
    ensures ClipboardLines(data) != [] && table != []
    ensures |table| < 2 || AllNumbered(table)
    ensures Reconcile(spec, data, byName, byEthernet, table).fileName == SiteName(ClipboardLines(data)[0]) + ".csv"
    ensures |Reconcile(spec, data, byName, byEthernet, table).lines| <= |ClipboardLines(data)|
    ensures |Reconcile(spec, data, byName, byEthernet, table).lines| <= |table|
  {
    var lines := ClipboardLines(data);
    var olds := OldAps(lines, byName, Empty());
    assert olds.Ok?;
    var site := SiteName(lines[0]);
    assert Reconcile(spec, data, byName, byEthernet, table) ==
      AfterOldAps(site, olds.value, Requests(spec).value, byEthernet, table);
    WrittenAfterOldAps(site, olds.value, Requests(spec).value, byEthernet, table);
  }

  lemma WrittenAfterOldAps(site: string, olds: Dict<string, string>, req: Requested,
                           byEthernet: string -> Option<seq<ApRecord>>, table: seq<Binding>)
    requires olds.Valid() && AfterOldAps(site, olds, req, byEthernet, table).Written?
    ensures table != [] && (|table| < 2 || AllNumbered(table))
    ensures AfterOldAps(site, olds, req, byEthernet, table).fileName == site + ".csv"
    ensures |AfterOldAps(site, olds, req, byEthernet, table).lines| <= |olds.keys|
    ensures |AfterOldAps(site, olds, req, byEthernet, table).lines| <= |table|
  {
    var sorted := SortByPort(table);
    assert |sorted| == |multiset(sorted)| == |multiset(table)| == |table|;
    var news := NewAps(sorted, req, byEthernet, Empty());
    assert news.Ok?;
    assert AfterOldAps(site, olds, req, byEthernet, table).lines == CsvLines(olds.Items(), news.value.Items());
  }

  /**
   * Because the emptiness test sits inside the loop, a first switch entry
   * (the lowest port) that was not asked for ends the program, whatever the
   * other entries hold.
   */
  lemma FirstUnrequestedStops(ports: seq<Binding>, req: Requested, byEthernet: string -> Option<seq<ApRecord>>)
    requires ports != [] && !Contains(req, ports[0].iface)
    ensures NewAps(ports, req, byEthernet, Empty()) == Err(Exited(NoApOnGivenPorts))
  {
  }

  /** Once `new_ap` holds an entry it never empties, so the loop never stops with "No AP found". */
  lemma {:induction false} NoApFoundNeverAfterEntry(ports: seq<Binding>, req: Requested,
                                                    byEthernet: string -> Option<seq<ApRecord>>, d: Dict<string, string>)
    requires d.Valid() && !d.IsEmpty()
    ensures NewAps(ports, req, byEthernet, d) != Err(Exited(NoApOnGivenPorts))
    decreases |ports|
  {
    if ports != [] {
      var step := NewApStep(ports[0], req, byEthernet, d);
      if step.Ok? {
        assert |d.keys| <= |step.value.keys|;
        NoApFoundNeverAfterEntry(ports[1..], req, byEthernet, step.value);
      }
    }
  }

  /**
   * A requested turn either ends the program or stores an entry, so the
   * second loop stops with "No AP found" exactly when the lowest-port entry
   * was not asked for.
   */
  lemma NoApFoundExactly(ports: seq<Binding>, req: Requested, byEthernet: string -> Option<seq<ApRecord>>)
    ensures NewAps(ports, req, byEthernet, Empty()) == Err(Exited(NoApOnGivenPorts)) <==>
      ports != [] && !Contains(req, ports[0].iface)
  {
    if ports != [] && Contains(req, ports[0].iface) {
      var empty: Dict<string, string> := Empty();
      var step := NewApStep(ports[0], req, byEthernet, empty);
      if step.Ok? {
        NoApFoundNeverAfterEntry(ports[1..], req, byEthernet, step.value);
      }
    }
  }

  /**
   * 'NonExistentPort' does not stop the program, but `interface in
   * 'NonExistentPort'` is false for every switch interface (they all contain
   * '/'), so no CSV is ever written after it.
   */
  lemma NonExistentPortNeverWrites(spec: string, data: string, byName: string -> Option<seq<ApRecord>>,
                                   byEthernet: string -> Option<seq<ApRecord>>, table: seq<Binding>)
    requires Expand(spec) == NonExistentPort
    requires forall b :: b in table ==> '/' in b.iface
    ensures !Reconcile(spec, data, byName, byEthernet, table).Written?
  {
    assert Requests(spec) == Ok(Sentinel(NON_EXISTENT_PORT));
    var lines := ClipboardLines(data);
    if |lines| == Size(Sentinel(NON_EXISTENT_PORT)) && lines != [] {
      var olds := OldAps(lines, byName, Empty());
      if olds.Ok? {
        forall b | b in table ensures !Contains(Sentinel(NON_EXISTENT_PORT), b.iface) {
          NotInSentinel(b.iface);
        }
        NothingRequestedNeverWrites(SiteName(lines[0]), olds.value, Sentinel(NON_EXISTENT_PORT), byEthernet, table);
      }
    }
  }

  /** When none of the switch's interfaces was asked for, no CSV is written. */
  lemma NothingRequestedNeverWrites(site: string, olds: Dict<string, string>, req: Requested,
                                    byEthernet: string -> Option<seq<ApRecord>>, table: seq<Binding>)
    requires olds.Valid()
    requires forall b :: b in table ==> !Contains(req, b.iface)
    ensures !AfterOldAps(site, olds, req, byEthernet, table).Written?
  {
    var sorted := SortByPort(table);
    if sorted != [] {
      assert sorted[0] in multiset(table);
      FirstUnrequestedStops(sorted, req, byEthernet);
    }
  }

  /** No interface name with a '/' occurs inside the string 'NonExistentPort'. */
  lemma NotInSentinel(iface: string)
    requires '/' in iface
    ensures !Contains(Sentinel(NON_EXISTENT_PORT), iface)
  {
    if IsSubstring(iface, NON_EXISTENT_PORT) {
      SubstringChars(iface, NON_EXISTENT_PORT, '/');
    }
  }

  /**
   * The switch entry `b` was asked for, and the server's first record for its
   * regrouped MAC has the `baseRadioMac` `k`.
   */
  predicate FoundAs(b: Binding, req: Requested, byEthernet: string -> Option<seq<ApRecord>>, k: string)
  {
    Contains(req, b.iface) &&
    FirstRecord(byEthernet, ColonGrouped(b.mac)).Ok? &&
    FirstRecord(byEthernet, ColonGrouped(b.mac)).value.baseRadioMac == k
  }

  /** One turn of the second loop keeps the entries it had, or adds what it found for `b`. */
  lemma NewApStepFrom(b: Binding, req: Requested, byEthernet: string -> Option<seq<ApRecord>>, d: Dict<string, string>)
    requires d.Valid() && NewApStep(b, req, byEthernet, d).Ok?
    ensures forall k :: k in NewApStep(b, req, byEthernet, d).value.values ==>
      (k in d.values && NewApStep(b, req, byEthernet, d).value.values[k] == d.values[k]) ||
      (NewApStep(b, req, byEthernet, d).value.values[k] == b.iface && FoundAs(b, req, byEthernet, k))
  {
  }

  /**
   * Every entry of `new_ap` maps the `baseRadioMac` the server reported for a
   * requested switch entry's MAC to that entry's interface.
   */
  lemma {:induction false} NewApsFromRequested(ports: seq<Binding>, req: Requested,
                                               byEthernet: string -> Option<seq<ApRecord>>, d: Dict<string, string>)
    requires d.Valid()
    ensures NewAps(ports, req, byEthernet, d).Ok? ==>
      forall k :: k in NewAps(ports, req, byEthernet, d).value.values ==>
        (k in d.values && NewAps(ports, req, byEthernet, d).value.values[k] == d.values[k]) ||
        (exists b :: b in ports && b.iface == NewAps(ports, req, byEthernet, d).value.values[k] &&
           FoundAs(b, req, byEthernet, k))
    decreases |ports|
  {
    if ports != [] {
      var step := NewApStep(ports[0], req, byEthernet, d);
      if step.Ok? && !step.value.IsEmpty() {
        NewApsFromRequested(ports[1..], req, byEthernet, step.value);
        var r := NewAps(ports, req, byEthernet, d);
        if r.Ok? {
          assert r == NewAps(ports[1..], req, byEthernet, step.value);
          forall k | k in r.value.values
            ensures (k in d.values && r.value.values[k] == d.values[k]) ||
              (exists b :: b in ports && b.iface == r.value.values[k] && FoundAs(b, req, byEthernet, k))
          {
            if k in step.value.values && r.value.values[k] == step.value.values[k] {
              NewApStepFrom(ports[0], req, byEthernet, d);
              if !(k in d.values && step.value.values[k] == d.values[k]) {
                assert ports[0] in ports;
              }
            } else {
              var b :| b in ports[1..] && b.iface == r.value.values[k] && FoundAs(b, req, byEthernet, k);
              assert b in ports;
            }
          }
        }
      }
    }
  }

  /**
   * Every entry of `existing_ap` is the first record the server gave for one
   * of the clipboard lines (the last such line, when names repeat).
   */
  lemma {:induction false} OldApsFromClipboard(lines: seq<string>, byName: string -> Option<seq<ApRecord>>,
                                               d: Dict<string, string>)
    requires d.Valid()
    ensures OldAps(lines, byName, d).Ok? ==>
      forall k :: k in OldAps(lines, byName, d).value.values ==>
        (k in d.values && OldAps(lines, byName, d).value.values[k] == d.values[k]) ||
        (exists l :: l in lines && FirstRecord(byName, l) == Ok(ApRecord(k, OldAps(lines, byName, d).value.values[k])))
    decreases |lines|
  {
    if lines != [] {
      var first := FirstRecord(byName, lines[0]);
      if first.Ok? {
        var d' := d.Put(first.value.apName, first.value.baseRadioMac);
        OldApsFromClipboard(lines[1..], byName, d');
        var r := OldAps(lines, byName, d);
        if r.Ok? {
          assert r == OldAps(lines[1..], byName, d');
          forall k | k in r.value.values
            ensures (k in d.values && r.value.values[k] == d.values[k]) ||
              (exists l :: l in lines && FirstRecord(byName, l) == Ok(ApRecord(k, r.value.values[k])))
          {
            if k in d'.values && r.value.values[k] == d'.values[k] {
              if !(k in d.values && d'.values[k] == d.values[k]) {
                assert lines[0] in lines;
              }
            } else {
              var l :| l in lines[1..] && FirstRecord(byName, l) == Ok(ApRecord(k, r.value.values[k]));
              assert l in lines;
            }
          }
        }
      }
    }
  }

  /**
   * Every clipboard line was answered, its AP name is a key of `existing_ap`,
   * and no key already present is lost.
   */
  lemma {:induction false} OldApsComplete(lines: seq<string>, byName: string -> Option<seq<ApRecord>>,
                                          d: Dict<string, string>)
    requires d.Valid()
    ensures OldAps(lines, byName, d).Ok? ==>
      forall l :: l in lines ==>
        FirstRecord(byName, l).Ok? && FirstRecord(byName, l).value.apName in OldAps(lines, byName, d).value.values
    ensures OldAps(lines, byName, d).Ok? ==>
      forall k :: k in d.values ==> k in OldAps(lines, byName, d).value.values
    decreases |lines|
  {
    if lines != [] {
      var first := FirstRecord(byName, lines[0]);
      if first.Ok? {
        var d' := d.Put(first.value.apName, first.value.baseRadioMac);
        OldApsComplete(lines[1..], byName, d');
        var r := OldAps(lines, byName, d);
        assert r == OldAps(lines[1..], byName, d');
        if r.Ok? {
          forall l | l in lines
            ensures FirstRecord(byName, l).Ok? && FirstRecord(byName, l).value.apName in r.value.values
          {
            if l != lines[0] {
              assert l in lines[1..];
            }
          }
        }
      }
    }
  }

  /**
   * Every switch entry that was asked for was answered, and its new AP's
   * `baseRadioMac` is a key of `new_ap`; no key already present is lost.
   */
  lemma {:induction false} NewApsComplete(ports: seq<Binding>, req: Requested,
                                          byEthernet: string -> Option<seq<ApRecord>>, d: Dict<string, string>)
    requires d.Valid()
    ensures NewAps(ports, req, byEthernet, d).Ok? ==>
      forall b :: b in ports && Contains(req, b.iface) ==>
        FirstRecord(byEthernet, ColonGrouped(b.mac)).Ok? &&
        FirstRecord(byEthernet, ColonGrouped(b.mac)).value.baseRadioMac in NewAps(ports, req, byEthernet, d).value.values
    ensures NewAps(ports, req, byEthernet, d).Ok? ==>
      forall k :: k in d.values ==> k in NewAps(ports, req, byEthernet, d).value.values
    decreases |ports|
  {
    if ports != [] {
      var step := NewApStep(ports[0], req, byEthernet, d);
      if step.Ok? && !step.value.IsEmpty() {
        NewApsComplete(ports[1..], req, byEthernet, step.value);
        var r := NewAps(ports, req, byEthernet, d);
        assert r == NewAps(ports[1..], req, byEthernet, step.value);
        if r.Ok? {
          forall b | b in ports && Contains(req, b.iface)
            ensures FirstRecord(byEthernet, ColonGrouped(b.mac)).Ok? &&
              FirstRecord(byEthernet, ColonGrouped(b.mac)).value.baseRadioMac in r.value.values
          {
            if b != ports[0] {
              assert b in ports[1..];
            }
          }
        }
      }
    }
  }

  /** Each pair's first component, in order. */
  function Firsts(ps: seq<(string, string)>): (r: seq<string>)
    ensures |r| == |ps| && forall i :: 0 <= i < |ps| ==> r[i] == ps[i].0
  {
    seq(|ps|, i requires 0 <= i < |ps| => ps[i].0)
  }

  predicate Distinct(s: seq<string>)
  {
    forall i, j :: 0 <= i < j < |s| ==> s[i] != s[j]
  }

  /** The pairs' keys are all different, and none is a key of `d` yet. */
  predicate FreshPairs(ps: seq<(string, string)>, d: Dict<string, string>)
  {
    Distinct(Firsts(ps)) && forall p :: p in ps ==> p.0 !in d.values
  }

  /**
   * The `(apName, baseRadioMac)` pairs the first loop stores, one per
   * clipboard line the server answers, in clipboard order.
   */
  function OldPairs(lines: seq<string>, byName: string -> Option<seq<ApRecord>>): seq<(string, string)>
    decreases |lines|
  {
    if lines == [] then []
    else
      (match FirstRecord(byName, lines[0])
       case Ok(ap) => [(ap.apName, ap.baseRadioMac)]
       case Err(_) => []) + OldPairs(lines[1..], byName)
  }

  /**
   * The `(baseRadioMac, interface)` pairs the second loop stores, one per
   * requested switch entry the server answers, in table order.
   */
  function NewPairs(ports: seq<Binding>, req: Requested, byEthernet: string -> Option<seq<ApRecord>>)
    : seq<(string, string)>
    decreases |ports|
  {
    if ports == [] then []
    else
      (if !Contains(req, ports[0].iface) then []
       else match FirstRecord(byEthernet, ColonGrouped(ports[0].mac))
         case Ok(ap) => [(ap.baseRadioMac, ports[0].iface)]
         case Err(_) => []) + NewPairs(ports[1..], req, byEthernet)
  }

  /** A pair's key is new to `d` and to the pairs after it, and they stay so once it is stored. */
  lemma FreshAfterPut(d: Dict<string, string>, k: string, v: string, rest: seq<(string, string)>)
    requires d.Valid() && FreshPairs([(k, v)] + rest, d)
    ensures k !in d.values && FreshPairs(rest, d.Put(k, v))
  {
    var s := Firsts([(k, v)] + rest);
    assert (k, v) in [(k, v)] + rest;
    forall i, j | 0 <= i < j < |rest| ensures Firsts(rest)[i] != Firsts(rest)[j] {
      assert s[i + 1] == Firsts(rest)[i] && s[j + 1] == Firsts(rest)[j];
    }
    forall p | p in rest ensures p.0 !in d.Put(k, v).values {
      var i :| 0 <= i < |rest| && rest[i] == p;
      assert s[i + 1] == p.0 && s[0] == k;
      assert p in [(k, v)] + rest;
    }
  }

  /** Storing a pair whose key is new puts it in front of the pairs still to come. */
  lemma PutInOrder(d: Dict<string, string>, k: string, v: string, rest: seq<(string, string)>)
    requires d.Valid() && FreshPairs([(k, v)] + rest, d)
    ensures FreshPairs(rest, d.Put(k, v))
    ensures d.Put(k, v).Items() + rest == d.Items() + ([(k, v)] + rest)
  {
    FreshAfterPut(d, k, v, rest);
    d.PutNew(k, v);
  }

  /**
   * When the AP names are all different, `existing_ap.items()` lists one
   * `(apName, baseRadioMac)` per clipboard line, in clipboard order.
   */
  lemma {:induction false} OldApsInOrder(lines: seq<string>, byName: string -> Option<seq<ApRecord>>,
                                         d: Dict<string, string>)
    requires d.Valid()
    ensures OldAps(lines, byName, d).Ok? ==> |OldPairs(lines, byName)| == |lines|
    ensures OldAps(lines, byName, d).Ok? && FreshPairs(OldPairs(lines, byName), d) ==>
      OldAps(lines, byName, d).value.Items() == d.Items() + OldPairs(lines, byName)
    decreases |lines|
  {
    if lines == [] {
      assert d.Items() + [] == d.Items();
    } else {
      var first := FirstRecord(byName, lines[0]);
      if first.Ok? {
        var ap := first.value;
        var rest := OldPairs(lines[1..], byName);
        assert OldPairs(lines, byName) == [(ap.apName, ap.baseRadioMac)] + rest;
        var d' := d.Put(ap.apName, ap.baseRadioMac);
        OldApsInOrder(lines[1..], byName, d');
        assert OldAps(lines, byName, d) == OldAps(lines[1..], byName, d');
        if FreshPairs(OldPairs(lines, byName), d) {
          PutInOrder(d, ap.apName, ap.baseRadioMac, rest);
        }
      }
    }
  }

  /**
   * When the new APs' `baseRadioMac`s are all different, `new_ap.items()`
   * lists one `(baseRadioMac, interface)` per requested switch entry, in
   * table order.
   */
  lemma {:induction false} NewApsInOrder(ports: seq<Binding>, req: Requested,
                                         byEthernet: string -> Option<seq<ApRecord>>, d: Dict<string, string>)
    requires d.Valid()
    ensures NewAps(ports, req, byEthernet, d).Ok? && FreshPairs(NewPairs(ports, req, byEthernet), d) ==>
      NewAps(ports, req, byEthernet, d).value.Items() == d.Items() + NewPairs(ports, req, byEthernet)
    decreases |ports|
  {
    if ports == [] {
      assert d.Items() + [] == d.Items();
    } else {
      var step := NewApStep(ports[0], req, byEthernet, d);
      if step.Ok? && !step.value.IsEmpty() {
        NewApsInOrder(ports[1..], req, byEthernet, step.value);
        assert NewAps(ports, req, byEthernet, d) == NewAps(ports[1..], req, byEthernet, step.value);
        if FreshPairs(NewPairs(ports, req, byEthernet), d) {
          NewApStepInOrder(ports, req, byEthernet, d);
        }
      }
    }
  }

  /** One turn of the second loop appends the pair it stores, when its key is new. */
  lemma NewApStepInOrder(ports: seq<Binding>, req: Requested,
                         byEthernet: string -> Option<seq<ApRecord>>, d: Dict<string, string>)
    requires d.Valid() && ports != [] && NewApStep(ports[0], req, byEthernet, d).Ok?
    requires FreshPairs(NewPairs(ports, req, byEthernet), d)
    ensures var step := NewApStep(ports[0], req, byEthernet, d).value;
      && step.Valid()
      && FreshPairs(NewPairs(ports[1..], req, byEthernet), step)
      && step.Items() + NewPairs(ports[1..], req, byEthernet) == d.Items() + NewPairs(ports, req, byEthernet)
  {
    var rest := NewPairs(ports[1..], req, byEthernet);
    if Contains(req, ports[0].iface) {
      var ap := FirstRecord(byEthernet, ColonGrouped(ports[0].mac)).value;
      assert NewPairs(ports, req, byEthernet) == [(ap.baseRadioMac, ports[0].iface)] + rest;
      PutInOrder(d, ap.baseRadioMac, ports[0].iface, rest);
    } else {
      assert [] + rest == rest;
      assert NewPairs(ports, req, byEthernet) == rest;
    }
  }

  /**
   * When a CSV is written and neither the AP names nor the new APs' MACs
   * repeat, its i-th line pairs the i-th clipboard host and its old MAC with
   * the new AP found on the i-th requested switch port, in port order.
   */
  lemma WrittenPairsUp(spec: string, data: string, byName: string -> Option<seq<ApRecord>>,
                       byEthernet: string -> Option<seq<ApRecord>>, table: seq<Binding>)
    requires Reconcile(spec, data, byName, byEthernet, table).Written? && Requests(spec).Ok?
    requires Distinct(Firsts(OldPairs(ClipboardLines(data), byName)))
    requires Distinct(Firsts(NewPairs(SortByPort(table), Requests(spec).value, byEthernet)))
    ensures Reconcile(spec, data, byName, byEthernet, table).lines ==
      CsvLines(OldPairs(ClipboardLines(data), byName), NewPairs(SortByPort(table), Requests(spec).value, byEthernet))
  {
    var req := Requests(spec).value;
    var lines := ClipboardLines(data);
    var empty: Dict<string, string> := Empty();
    var olds := OldAps(lines, byName, empty);
    assert olds.Ok?;
    OldApsInOrder(lines, byName, empty);
    assert olds.value.Items() == OldPairs(lines, byName);
    var sorted := SortByPort(table);
    var news := NewAps(sorted, req, byEthernet, empty);
    assert news.Ok?;
    NewApsInOrder(sorted, req, byEthernet, empty);
    assert news.value.Items() == NewPairs(sorted, req, byEthernet);
  }

  /** A CSV line ends the record with '\n' and splits at ',' back into its four fields. */
  lemma CsvLineFields(host: string, oldMac: string, newMac: string)
    requires ',' !in host && ',' !in oldMac && ',' !in newMac
    ensures CsvLine(host, oldMac, newMac) == (host + "," + oldMac + "," + host + "," + newMac) + "\n"
    ensures Split(host + "," + oldMac + "," + host + "," + newMac, ",") == [host, oldMac, host, newMac]
  {
    var t1 := host + "," + newMac;
    var t2 := oldMac + "," + t1;
    var t3 := host + "," + t2;
    assert host + "," + oldMac + "," + host + "," + newMac == t3;
    SplitWithoutSeparator(newMac, ',');
    SplitComma(host, newMac);
    SplitComma(oldMac, t1);
    SplitComma(host, t2);
  }

  lemma SplitComma(a: string, b: string)
    requires ',' !in a
    ensures Split(a + "," + b, ",") == [a] + Split(b, ",")
  {
    SplitAtFirst(a, b, ',');
  }
}
