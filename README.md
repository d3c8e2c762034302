# Cisco Prime access-point replacement scripts, modelled in Dafny

Two scripts help replace the access points (APs) connected to a Cisco
Catalyst switch. Both read a port specification such as `1-8,11-21` and turn
it into interface names `Gi1/0/1`, `Gi1/0/2`, and so on.

- `copy-and-replace.py` does the following:
  1. It reads the old APs' host names from the clipboard.
  2. It asks the Cisco Prime inventory server for each one's `baseRadioMac`.
  3. It reads the switch's static MAC table and sorts it by port number with a
     hand-written exchange sort.
  4. It regroups each Ethernet MAC from `7079.b3fd.0960` to `70:79:b3:fd:09:60`.
  5. It asks the server for the new AP behind each requested port.
  6. It writes `<site>.csv` with one line `host,oldMac,host,newMac` per
     old/new pair.
- `mac_serial_table.py` builds a summary with one entry per requested
  interface, sorted. It fills in each interface's MAC address from the
  switch, then each AP's serial number from the server.

The model has one module per concern:

| module | file | what it holds |
|---|---|---|
| `Wrappers` | wrappers.dfy | `Option` and `Result` |
| `Text` | text.dfy | Python's `str.split`, `str.join`, `int()` and `str()` of an integer |
| `Interfaces` | interfaces.dfy | `Gi1/0/` names and `int(iface[6:])` |
| `Sorting` | sorting.dfy | the stable insertion sort used as the reference for `sorted()` |
| `OrderedDict` | ordered_dict.dfy | a Python dict as the scripts use it |
| `Grouping` | grouping.dfy | `itertools.groupby` as used to drop repeated records |
| `MacAddress` | mac_address.dfy | dotted to colon-grouped MAC addresses |
| `PortRange` | port_range.dfy | `Reinv.port_range` |
| `PortTable` | port_table.dfy | the exchange sort in `Reinv.switch`, on an array |
| `Reconcile` | reconcile.dfy | the main program of `copy-and-replace.py` |
| `SerialTable` | serial_table.dfy | the `LoginSwitch` class and the serial loop of `mac_serial_table.py` |

The switch, the inventory server and the clipboard are parameters:
- the switch's static MAC table is a sequence of `Binding(mac, iface)`;
- each server lookup is a function from the query text to the records it
  returns (`None` for an HTTP error);
- the clipboard is a string;
- in the serial script, `found(iface)` is the list of addresses the regular
  expression finds in the switch's answer for one interface;
- `serialOf(mac)` is the serial number read from the server's answer (`None`
  where it cannot be read).

Each program ends in one of three ways, and the model says which:
- a written file, or a printed summary;
- a `sys.exit()` after a message;
- an escaping exception.

The model follows the code as written. Where the code's behaviour is
surprising, the model keeps it and a lemma states what it does:

- `port_range` accepts a token with three or more `-`-separated parts. That
  token appends the previous token's names again, or raises UnboundLocalError
  when it comes first (`PortRange.MalformedRepeats`, `PortRange.ExpandFaults`).
  It never returns `'IndexFault'`.
- A bare token is used verbatim, without checking that it is a number.
- A range past port 48 gives `'NonExistentPort'`, and the main program does not
  exit on it. The count check then uses the length of that 15-character
  string, and `interface in port_ranges` becomes a substring test, so no CSV is
  ever written (`Reconcile.NonExistentPortNeverWrites`).
- The "no AP found" test sits inside the loop over the switch table. A
  requested entry either ends the program (a failed lookup, or an empty
  answer) or stores an entry, after which `new_ap` is never empty again. So
  the program stops with "No AP found" exactly when the lowest-port entry was
  not requested, whatever the other entries hold
  (`Reconcile.FirstUnrequestedStops`, `Reconcile.NoApFoundExactly`).
- MAC addresses are neither validated nor lower-cased. They are only regrouped.
- In `mac_serial_table.py`, ranges become integers and bare tokens stay
  strings. A specification that mixes the two makes `sorted()` raise
  TypeError (`SerialTable.RangeThenSinglePort`). Bare tokens are sorted as text
  (`SerialTable.TenBeforeNine`). A bound past 48 only prints a warning
  (`SerialTable.RangePastLastPort`).

## Model

| member | source | states |
|---|---|---|
| Text.Split | copy-and-replace.py:150 | `str.split(sep)`: the pieces between the separators, at least one; `JoinSplit`, `SplitWithoutSeparator` and `SplitAtFirst` state what they are |
| Text.ParseInt | copy-and-replace.py:155-156 | Python's `int()` on text: surrounding whitespace, an optional sign, decimal digits, and no value otherwise; `ParseIntString` states that it reads back every printed integer |
| Text.IntString | copy-and-replace.py:161 | `'{}'.format(n)` on an integer: never empty, and read back by `ParseInt` (`ParseIntString`) |
| Text.Without | copy-and-replace.py:239 | the characters that are not dropped, in their order and never more than the input; `WithoutDrops` states which ones they are |
| Text.JoinSplit | copy-and-replace.py:267 | joining the pieces of a split with the same separator gives the string back |
| Text.SplitWithoutSeparator | copy-and-replace.py:150 | text without the separator splits into itself alone |
| Text.SplitAtFirst | copy-and-replace.py:150 | the text before the first separator is the first piece and the rest is split on |
| Text.ParseIntString | copy-and-replace.py:155-156 | `int(str(n)) == n` for every integer n |
| Text.WithoutDrops | copy-and-replace.py:239 | no kept character satisfies the dropped predicate, and a character is in the result exactly when it is in the input and not dropped |
| Interfaces.PortNumber | copy-and-replace.py:137 | `int(iface[6:])`, with no value where Python raises ValueError; `PortNumberOfName` states that it reads back a port name's number |
| Interfaces.PortNumberOfName | copy-and-replace.py:137 | `int(iface[6:])` of the name of port n gives n back |
| Interfaces.PortNameInjective | copy-and-replace.py:161 | distinct port numbers give distinct interface names |
| Grouping.Dedup | copy-and-replace.py:84 | collapsing adjacent repeats keeps the first record, empties nothing non-empty, never lengthens |
| Grouping.DedupIsSubsequence | copy-and-replace.py:84 | the collapsed list is a subsequence of the records |
| Grouping.DedupHasNoAdjacentDuplicates | copy-and-replace.py:84 | no two neighbours of the collapsed list are equal |
| Grouping.DedupKeepsValues | copy-and-replace.py:84 | a record occurs after collapsing exactly when it occurred before |
| Grouping.DedupOfNoAdjacentDuplicates | copy-and-replace.py:84 | a list without adjacent repeats is left as it is |
| Grouping.DedupIdempotent | copy-and-replace.py:84 | collapsing twice is collapsing once |
| Grouping.DedupKeepsNonAdjacentRepeat | copy-and-replace.py:84 | only adjacent repeats are dropped: `[x, x, y, x]` keeps the last `x` |
| MacAddress.ColonGrouped | copy-and-replace.py:266-268 | the dots removed and the rest cut into colon-separated pairs; `ColonGroupedRoundTrip`, `TwelveDigitsBecomeSeventeen` and `CiscoExample` state what it gives |
| MacAddress.Pairs | copy-and-replace.py:268 | a string of length n is cut into ceil(n/2) chunks |
| MacAddress.DotsRemoved | copy-and-replace.py:267 | `''.join(mac.split('.'))` is the address with every dot removed |
| MacAddress.JoinedPairsWithoutColons | copy-and-replace.py:268 | removing the colons from the regrouped text gives the ungrouped text back |
| MacAddress.ColonGroupedRoundTrip | copy-and-replace.py:266-268 | regrouping loses no character other than dots: a colon-free address is recovered exactly |
| MacAddress.TwelveDigitsBecomeSeventeen | copy-and-replace.py:266-268 | twelve characters become six pairs: seventeen characters with a colon at every third place |
| MacAddress.TwelveRegrouped | copy-and-replace.py:268 | twelve characters are regrouped into the six pairs in order |
| MacAddress.CiscoExample | copy-and-replace.py:266 | `7079.b3fd.0960` becomes `70:79:b3:fd:09:60` |
| MacAddress.ExampleInGroups | copy-and-replace.py:266-268 | the same example, with the three dotted groups given separately |
| MacAddress.DottedGroupsJoined | copy-and-replace.py:267 | three dot-free groups joined by dots lose exactly their dots |
| MacAddress.ExampleRegrouped | copy-and-replace.py:268 | `7079b3fd0960` is cut into `70:79:b3:fd:09:60` |
| OrderedDict.Dict.Put | copy-and-replace.py:251 | `d[k] = v` sets k to v, keeps every other key and value, and appends k only when it is new |
| OrderedDict.Dict.PutNew | copy-and-replace.py:251 | assigning to a new key appends that key, and its pair in `d.items()`, after all the others, so `items()` lists pairs in insertion order |
| Sorting.Insert | mac_serial_table.py:69 | inserting adds exactly one occurrence of the item |
| Sorting.InsertionSort | mac_serial_table.py:69 | the sorted list is a permutation of its input |
| Sorting.InsertionSortSorted | mac_serial_table.py:69 | under a total preorder, the result is in order |
| Sorting.InsertionSortStable | copy-and-replace.py:130-141 | items with equal keys keep their input order |
| Sorting.AscendingUnique | copy-and-replace.py:130-141 | two key-ascending lists with the same per-key order are equal |
| PortRange.Classify | copy-and-replace.py:153-163 | how one token is read: two numeric parts are a range, two parts with a non-numeric one are a ValueError, one part is a verbatim name, more parts match no branch; `ClassifyTwoParts` and `ClassifySingle` state it |
| PortRange.Step | copy-and-replace.py:156-166 | the names one token appends, or the sentinel it returns; a three-part token reuses the previous `a_range`; `ExpandFirstFault` and `MalformedRepeats` state it |
| PortRange.ExpandFrom | copy-and-replace.py:152-166 | the loop over the tokens from a given list and previous range; `ExpandFromFaults`, `ExpandFromConcatenates` and `ExpandFromPrefix` state what it gives |
| PortRange.Expand | copy-and-replace.py:143-169 | `port_range` as a whole; `ExpandFaults`, `ExpandConcatenates` and `TwoRanges` state what it gives |
| PortRange.ExpandPorts | copy-and-replace.py:143-169 | the loop over the tokens returns exactly `Expand(spec)` |
| PortRange.ReadToken | copy-and-replace.py:153-163 | one token is split, parsed and bound-checked as `Step(Classify(t))` says |
| PortRange.AppendAll | copy-and-replace.py:165-166 | appending each name in turn gives the list followed by the names |
| PortRange.ExpandFaults | copy-and-replace.py:151-169 | 'IndexFault' never comes back; each other sentinel or exception traces to a token that causes it |
| PortRange.ExpandFromFaults | copy-and-replace.py:152-166 | the same, for the loop started from any state |
| PortRange.ExpandConcatenates | copy-and-replace.py:150-167 | well-formed tokens within the 48 ports give their names one token after another, in the order given, without sorting or deduplication |
| PortRange.ExpandFromConcatenates | copy-and-replace.py:152-166 | the same, for the loop started from any state |
| PortRange.ExpandFromPrefix | copy-and-replace.py:152-166 | a well-formed prefix of the tokens contributes its names before the rest is read |
| PortRange.ExpandFirstFault | copy-and-replace.py:152-160 | after well-formed tokens, a range past port 48 gives 'NonExistentPort' and a non-numeric bound gives 'IntFault' |
| PortRange.MalformedRepeats | copy-and-replace.py:152-166 | a three-part token after a good one appends that token's names a second time |
| PortRange.RangeNamesAscending | copy-and-replace.py:161 | the k-th name of `range(lo, hi)` has port number lo + k |
| PortRange.ClassifyTwoParts | copy-and-replace.py:153-160 | `A-B` with both bounds numeric is the range A..B+1; otherwise a non-numeric token |
| PortRange.ClassifySingle | copy-and-replace.py:162-163 | a token without '-' is one name, used verbatim |
| PortRange.EmptyRange | copy-and-replace.py:161 | a range whose upper bound is below its lower bound expands to nothing, without error |
| PortRange.TwoRanges | copy-and-replace.py:150-167 | two ranges within the 48 ports give the names of the first, then those of the second |
| PortRange.TwoRangesExample | copy-and-replace.py:143-148 | `1-8,11-21` gives ports 1..8 then 11..21, 19 names |
| PortRange.NonNumeric | copy-and-replace.py:154-160 | a single `A-B` token with a non-numeric A gives 'IntFault' |
| PortRange.NonNumericExamples | copy-and-replace.py:154-160 | `a-5` and `-5` both give 'IntFault' |
| PortTable.BubbleSort | copy-and-replace.py:130-141 | the sort succeeds exactly when every interface has a number (or there is at most one entry), and then leaves the table equal to the stable sort by port number; the entries are always a permutation of the input |
| PortTable.ExchangeSort | copy-and-replace.py:130-141 | the nested loops raise only on an interface without a number, and otherwise leave the array key-ascending with equal keys in input order |
| PortTable.ExchangePass | copy-and-replace.py:133-140 | one pass moves the largest remaining entry to the end of the unsorted part, preserving the permutation and the per-key order |
| PortTable.Exchange | copy-and-replace.py:139-140 | MAC and interface move together as one compare-and-swap |
| PortTable.CompareSwap | copy-and-replace.py:137-140 | a compare-and-swap keeps the entries and their per-key order |
| PortTable.CompareSwapStep | copy-and-replace.py:133-140 | a compare-and-swap carries the largest entry one place to the right |
| PortTable.SortByPort | copy-and-replace.py:130-141 | the reference order of the bubble sort: a stable sort by port number; `SortByPortOrdered` and `SortByPortUnique` state it, and `BubbleSort` is proved to end with it |
| PortTable.SortByPortOrdered | copy-and-replace.py:128-141 | the reference sort is ascending in port number, a permutation, and stable |
| PortTable.SortByPortUnique | copy-and-replace.py:128-141 | any stable ascending arrangement of the table is the reference sort |
| Reconcile.NonEmpty | copy-and-replace.py:229 | the pieces that are not empty, never more than given; `NonEmptyAppend`, `NonEmptyCounts` and `NonEmptyMembers` state their order, multiplicity and membership |
| Reconcile.ClipboardLines | copy-and-replace.py:229 | `[line for line in data.split('\r\n') if not line == '']`; `NonEmptyAppend`, `NonEmptyCounts` and `NonEmptyMembers` state what it keeps and in which order |
| Reconcile.SiteName | copy-and-replace.py:239 | the first host name without its digits; `SiteNameDigitFree` states it |
| Reconcile.Prime | copy-and-replace.py:82-84 | `Reinv.prime`: no answer on an HTTP error, else the records with adjacent repeats collapsed; `PrimeFirst` states what the program reads of it |
| Reconcile.CsvLine | copy-and-replace.py:295 | the text written for one pair; `CsvLineFields` states its four fields |
| Reconcile.Reconcile | copy-and-replace.py:208-295 | how the main program ends for given inputs; `WrittenMeans`, `WrittenPairsUp`, `ClipboardMustMatchPorts` and `NonExistentPortNeverWrites` state it, and `Run` is proved to end the same way |
| Reconcile.AfterOldAps | copy-and-replace.py:253-295 | the program from the switch query on; `WrittenAfterOldAps` and `NothingRequestedNeverWrites` state it, and `FromSwitch` is proved to end the same way |
| Reconcile.Requests | copy-and-replace.py:208-219 | the sentinels that exit or crash never let the program write a file |
| Reconcile.NonEmptyAppend | copy-and-replace.py:229 | the kept lines keep the clipboard's order: one more piece adds itself at the end unless it is empty |
| Reconcile.NonEmptyCounts | copy-and-replace.py:229-236 | every non-empty line is kept as often as it occurs, and no empty one, so the count check counts repeated lines |
| Reconcile.NonEmptyMembers | copy-and-replace.py:229 | the clipboard's kept lines are exactly its non-empty lines |
| Reconcile.SiteNameDigitFree | copy-and-replace.py:239 | the site name holds no digit, and equals the host name exactly when the host name has none |
| Reconcile.PrimeFirst | copy-and-replace.py:82-84 | dropping repeated records never changes which record comes first, or whether there is one |
| Reconcile.FirstRecord | copy-and-replace.py:246-251 | an HTTP error or an empty answer never lets the program write a file |
| Reconcile.OldAps | copy-and-replace.py:243-251 | the first loop keeps the dictionary well-formed with at most one new key per clipboard line, and ends only by writing nothing when a lookup fails; `OldApsComplete`, `OldApsFromClipboard` and `OldApsInOrder` state what it holds |
| Reconcile.NewApStep | copy-and-replace.py:262-278 | an entry not asked for changes nothing; an asked-for entry is looked up by its regrouped MAC, fails exactly when the lookup does, and otherwise stores `new_ap[baseRadioMac] = interface`; one turn adds at most one key |
| Reconcile.NewAps | copy-and-replace.py:261-282 | the second loop adds at most one key per table entry, and ends only by writing nothing when it stops early; `NewApsComplete`, `NewApsFromRequested` and `NewApsInOrder` state what it holds |
| Reconcile.CsvLines | copy-and-replace.py:293-295 | `zip` writes as many lines as the shorter of the two dictionaries has entries |
| Reconcile.GatherOld | copy-and-replace.py:243-251 | the first loop, a `for` loop over the clipboard lines, computes `OldAps` |
| Reconcile.GatherNew | copy-and-replace.py:261-286 | the second loop, a `for` loop over the sorted table, computes `NewAps` |
| Reconcile.WriteCsv | copy-and-replace.py:293-295 | the writing loop produces exactly the `CsvLines` |
| Reconcile.Run | copy-and-replace.py:208-295 | the main program ends exactly as `Reconcile` says |
| Reconcile.FromSwitch | copy-and-replace.py:253-295 | the switch query, the array sort, the second loop and the writing end as `AfterOldAps` says |
| Reconcile.ClipboardMustMatchPorts | copy-and-replace.py:229-237 | more clipboard lines than requested ports, or fewer, exits before any lookup |
| Reconcile.WrittenMeans | copy-and-replace.py:208-295 | a written CSV implies the following: the count check passed, both inputs were non-empty, every interface was numbered, the file is `<site>.csv`, and there are no more lines than old APs or table entries |
| Reconcile.WrittenAfterOldAps | copy-and-replace.py:253-295 | the same, from the switch query on |
| Reconcile.NoApFoundNeverAfterEntry | copy-and-replace.py:262-281 | once `new_ap` holds an entry, the loop never stops with "No AP found" |
| Reconcile.NoApFoundExactly | copy-and-replace.py:262-281 | the second loop stops with "No AP found" exactly when the lowest-port entry was not requested |
| Reconcile.FirstUnrequestedStops | copy-and-replace.py:262-281 | a first table entry outside the request exits with "No AP found" |
| Reconcile.NonExistentPortNeverWrites | copy-and-replace.py:219-281 | with 'NonExistentPort' and interface names containing '/', no CSV is ever written |
| Reconcile.NothingRequestedNeverWrites | copy-and-replace.py:262-281 | a table with no requested interface never leads to a written CSV |
| Reconcile.NotInSentinel | copy-and-replace.py:265 | an interface name containing '/' is not a substring of 'NonExistentPort' |
| Reconcile.NewApStepFrom | copy-and-replace.py:265-275 | after one turn every entry is either one it had or the found `baseRadioMac` of the turn's entry mapped to its interface |
| Reconcile.NewApsFromRequested | copy-and-replace.py:262-275 | every new AP entry maps the `baseRadioMac` the server reported for a requested switch entry's regrouped MAC to that entry's interface |
| Reconcile.OldApsComplete | copy-and-replace.py:243-251 | when the first loop finishes, every clipboard line had an answer and its AP name is a key, and no earlier key is lost |
| Reconcile.NewApsComplete | copy-and-replace.py:262-275 | when the second loop finishes, every requested switch entry had an answer and its new AP's `baseRadioMac` is a key, and no earlier key is lost |
| Reconcile.OldApsInOrder | copy-and-replace.py:243-251 | when the loop finishes, one pair was found per clipboard line; when the AP names do not repeat, the items are those pairs in clipboard order |
| Reconcile.NewApsInOrder | copy-and-replace.py:262-275 | when the new APs' MACs do not repeat, the items are one `(baseRadioMac, interface)` per requested switch entry, in table order |
| Reconcile.WrittenPairsUp | copy-and-replace.py:243-295 | when a CSV is written and neither AP names nor new MACs repeat, its i-th line joins the i-th clipboard host and its old MAC with the new AP on the i-th requested port in port order |
| Reconcile.OldApsFromClipboard | copy-and-replace.py:243-251 | every old AP entry is the first record the server gave for one of the clipboard lines |
| Reconcile.CsvLineFields | copy-and-replace.py:295 | a line ends in a newline, and its comma-separated fields are host, old MAC, host, new MAC |
| SerialTable.Items | mac_serial_table.py:57-68 | the first loop of `__init__`: the numbers and names the tokens give, or the exception that stops it; `ItemsFaults`, `ItemsNotANumber`, `ItemsOfRanges` and `RangePastLastPort` state it |
| SerialTable.Sorted | mac_serial_table.py:69 | `sorted()` on those items; `SortedOrders` and `SortedUnique` state it |
| SerialTable.PortList | mac_serial_table.py:57-69 | `self.ports` once `__init__` has sorted and prefixed it; `RangesAscend`, `RangeThenSinglePort` and `TenBeforeNine` state it |
| SerialTable.SummaryOf | mac_serial_table.py:70-74 | the blank summary, a well-formed dictionary; `SummaryOfCovers` states its keys and entries |
| SerialTable.Filled | mac_serial_table.py:80-123 | the summary after `mac_address_table` and the serial loop, or the step that stops them; `FilledEntries` states it |
| SerialTable.Report | mac_serial_table.py:112-124 | the printed summary, or how the script stops; `Gather` is proved to end with it |
| SerialTable.LoginSwitch.constructor | mac_serial_table.py:70-74 | the summary gets one blank entry per interface, and the class invariant holds |
| SerialTable.LoginSwitch.Open | mac_serial_table.py:57-69 | construction succeeds exactly when `PortList` does; the ports are then its list and the summary is built from them |
| SerialTable.LoginSwitch.MacAddressTable | mac_serial_table.py:76-86 | succeeds exactly when every interface has an address; each interface then has its first address regrouped with colons; a failure leaves exactly the interfaces before the first unmatched one updated |
| SerialTable.FillSerials | mac_serial_table.py:115-123 | succeeds exactly when every entry's MAC has a serial; each entry then has its serial; a failure leaves exactly the entries before the first unreadable one updated |
| SerialTable.Gather | mac_serial_table.py:112-123 | the whole script computes exactly `Report` |
| SerialTable.SummaryOfCovers | mac_serial_table.py:70-74 | the summary's keys are exactly the interfaces, each with a blank MAC and serial |
| SerialTable.FilledEntries | mac_serial_table.py:80-123 | the summary is printed exactly when every interface has an address whose serial can be read; it then holds every interface with its first address regrouped and that address's serial; an unmatched interface is what stops it at the MAC step |
| SerialTable.StrLeTotal | mac_serial_table.py:69 | any two strings compare |
| SerialTable.StrLeTransitive | mac_serial_table.py:69 | string order is transitive |
| SerialTable.StrLeAntisymmetric | mac_serial_table.py:69 | strings that compare both ways are equal |
| SerialTable.ItemLeTotalOrder | mac_serial_table.py:69 | the order `sorted()` uses is a total order |
| SerialTable.SortedOrders | mac_serial_table.py:69 | `sorted()` succeeds exactly on lists of one kind, and then gives an ascending permutation: numerically for numbers, by code point for text |
| SerialTable.SortedUnique | mac_serial_table.py:69 | there is only one ascending permutation, so `sorted()`'s algorithm does not matter |
| SerialTable.SpanNumbers | mac_serial_table.py:58-68 | ranges only give numbers |
| SerialTable.SpanNumbersMembers | mac_serial_table.py:64 | a number is produced exactly when one of the ranges holds it |
| SerialTable.ItemsFromSpans | mac_serial_table.py:58-68 | with ranges only, every range's numbers are appended in turn |
| SerialTable.ItemsFromFaults | mac_serial_table.py:58-68 | the loop never reports a sort error; a ValueError traces to a non-numeric token; UnboundLocalError happens exactly when the first token has three or more parts |
| SerialTable.ItemsFaults | mac_serial_table.py:57-68 | the same, for the specification as split on commas |
| SerialTable.ItemsFromFirstNotANumber | mac_serial_table.py:58-68 | a token with a non-numeric bound, reached without an earlier failure, makes the loop raise ValueError |
| SerialTable.ItemsNotANumber | mac_serial_table.py:57-69 | the same for the specification: `__init__` raises ValueError and no port list is made |
| SerialTable.ItemsOfRanges | mac_serial_table.py:57-68 | a specification of ranges only gives every number of every range, in turn |
| SerialTable.NumbersAscend | mac_serial_table.py:69 | sorted and prefixed, numbers become interfaces in ascending port order: the i-th interface reads back as the i-th sorted number, and the sorted numbers are the given ones with the same multiplicities |
| SerialTable.RenderedNumbers | mac_serial_table.py:69 | each interface made from a number reads back as that number |
| SerialTable.RenderedAscending | mac_serial_table.py:69 | the same for an ascending list, with every number present as an interface |
| SerialTable.RangesAscend | mac_serial_table.py:57-69 | a specification of ranges only gives every number of every range, each as often as the ranges hold it and no bound checked, as interfaces in ascending port order |
| SerialTable.RangePastLastPort | mac_serial_table.py:59-64 | a single range past port 48 is expanded in full, where `port_range` refuses it with 'NonExistentPort' |
| SerialTable.TwoTokens | mac_serial_table.py:57 | a specification with one comma is read as its two tokens |
| SerialTable.RangeThenSinglePort | mac_serial_table.py:59-69 | a non-empty range followed by a single port makes `sorted()` raise TypeError |
| SerialTable.RangeAndPortExample | mac_serial_table.py:59-69 | `1-3,5` raises TypeError |
| SerialTable.SinglePortsSortAsText | mac_serial_table.py:65-69 | two single ports are listed in text order |
| SerialTable.TwoSingles | mac_serial_table.py:65-68 | two single ports give their two strings |
| SerialTable.TwoTextSorted | mac_serial_table.py:69 | two strings already in text order stay in that order |
| SerialTable.TenBeforeNine | mac_serial_table.py:65-69 | `10,9` lists `Gi1/0/10` before `Gi1/0/9` |
| SerialTable.MacsStep | mac_serial_table.py:80-85 | updating the next interface's MAC extends the updated prefix by one |
| SerialTable.SerialsStep | mac_serial_table.py:115-123 | updating the next entry's serial extends the updated prefix by one, and leaves its MAC as it was |
| SerialTable.MacsAll | mac_serial_table.py:80-85 | once every interface is reached, every entry has its MAC |
| SerialTable.SerialsAll | mac_serial_table.py:115-123 | once every entry is reached, every entry has its serial |

## Left out

- HTTP, TLS and Basic authentication, JSON decoding, and the per-status
  messages of `Reinv.prime` are left out. They become the lookup parameters,
  where `None` stands for an HTTP error.
- The SSH session to the switch (`netmiko`) and the regular expressions over
  its output are left out. The static MAC table, and each interface's list of
  matches, are parameters.
- Clipboard access, `argparse`, the pip installer, screen clearing, `print`,
  `pprint`, `sleep`, and file creation and listing are left out. The CSV
  writer is modelled as the list of lines written.
- Python's `int()` is modelled on ASCII whitespace, an optional sign and ASCII
  digits. Underscores between digits, and non-ASCII digits and whitespace, are
  left out. `str.isdigit` is likewise modelled on ASCII digits only.
- A malformed JSON answer is left out, because JSON decoding is abstracted
  into the lookup parameters, which only answer with records or no answer.
  In the program such an answer makes `Reinv.prime` raise TypeError, which
  its `except KeyError` does not catch. In the second loop the
  `except TypeError` handler then exits with "Switch initialization failed".
  In the first loop the exception escapes. Neither path is modelled.
- The `except KeyError` of `Reinv.prime` is left out. A missing JSON field is
  part of what the lookup parameter returns.
- SerialTable.LoginSwitch.constructor: in the script, `__init__` itself
  expands the specification and can raise. In the model, the expansion that
  can fail is `LoginSwitch.Open`, which runs before the object exists and
  passes the sorted ports to the constructor.
- SerialTable.Sorted: `sorted()` on a mixed list is modelled as always raising
  TypeError. This holds for any correct comparison sort, because two
  neighbours of different kinds must be compared. It is not derived from
  CPython's algorithm.
- The warning printed for a range past port 48 in `LoginSwitch.__init__` is
  left out. Only its absence of effect is modelled.
- SerialTable.LoginSwitch.MacAddressTable and SerialTable.FillSerials update
  a local copy of the summary and store it once: when the loop ends, or at the
  interface where the script raises. No other code reads the summary in
  between, so the state the script leaves is the one modelled. The aliasing
  of the nested entry dictionaries is not modelled.
- The `Login` class of `mac_serial_table.py` (its HTTP request) and the JSON
  decoding in `parse` are left out. `serialOf` stands for both, and `None`
  stands for an answer that makes `parse` raise.
- The connection object held by `LoginSwitch` is left out. `found` stands for
  what it answers.
