/**
 * `Reinv.port_range`: the user's port specification (`"1-8,11-21"`) becomes
 * the list of interface names `Gi1/0/1`, ..., `Gi1/0/21`, or one of the
 * sentinel strings the script returns instead of raising.
 */
module PortRange {
  import opened Wrappers
  import opened Text
  import opened Interfaces

  /**
   * What `port_range` gives back: the names, or a sentinel. `UnboundRange` is
   * the UnboundLocalError that escapes when the very first token has three or
   * more '-'-separated parts and no earlier range exists to reuse.
   */
  datatype Expansion =
    | Ports(names: seq<string>)
    | NonExistentPort
    | IntFault
    | IndexFault
    | UnboundRange

  /** How one comma-separated token is read. */
  datatype Token =
    | Span(first: int, stop: int) // `A-B` read as `range(A, B + 1)`
    | NotNumeric                   // `A-B` where `int()` refuses A or B
    | Single(text: string)       // no '-': used verbatim
    | Malformed                  // three or more parts: neither branch runs

  /** The highest port that exists, plus one: the 48 ports of the switch. */
  const PORT_LIMIT := 49

  function Classify(t: string): Token
  {
    var parts := Split(t, "-");
    if |parts| == 2 then
      match (ParseInt(parts[0]), ParseInt(parts[1]))
      case (Some(a), Some(b)) => Span(a, b + 1)
      case _ => NotNumeric
    else if |parts| == 1 then Single(t)
    else Malformed
  }

  /** `['Gi1/0/{}'.format(n) for n in range(from, to)]`. */
  function RangeNames(lo: int, hi: int): (r: seq<string>)
    ensures |r| == if lo < hi then hi - lo else 0
  {
    seq(if lo < hi then hi - lo else 0, i => PortName(IntString(lo + i)))
  }


  /** Each token of the specification, classified. */
  function Classified(ts: seq<string>): (ks: seq<Token>)
    ensures |ks| == |ts| && forall i :: 0 <= i < |ts| ==> ks[i] == Classify(ts[i])
  {
    seq(|ts|, i requires 0 <= i < |ts| => Classify(ts[i]))
  }

  /**
   * One token's turn in the loop: the names it appends (and leaves in
   * `a_range`), or the sentinel it returns. A token of three or more parts
   * assigns nothing, so the previous token's `a_range` is appended again.
   */
  function Step(k: Token, prev: Option<seq<string>>): Result<seq<string>, Expansion>
  {
    match k
    case NotNumeric => Err(IntFault)
    case Span(a, b) => if b > PORT_LIMIT then Err(NonExistentPort) else Ok(RangeNames(a, b))
    case Single(x) => Ok([PortName(x)])
    case Malformed => if prev.Some? then Ok(prev.value) else Err(UnboundRange)
  }

  /**
   * The loop over the tokens, from the list built so far and the previous
   * token's names (the variable `a_range` that outlives its iteration).
   */
  function ExpandFrom(ks: seq<Token>, ports: seq<string>, prev: Option<seq<string>>): Expansion
    decreases |ks|
  {
    if ks == [] then Ports(ports)
    else
      match Step(ks[0], prev)
      case Err(e) => e
      case Ok(names) => ExpandFrom(ks[1..], ports + names, Some(names))
  }

  function Expand(spec: string): Expansion
  {
    ExpandFrom(Classified(Split(spec, ",")), [], None)
  }

  /** `Reinv.port_range`, appending each token's names to the list in turn. */
  method ExpandPorts(spec: string) returns (r: Expansion)
    ensures r == Expand(spec)
  {
    var tokens := Split(spec, ",");
    ghost var ks := Classified(tokens);
    var ports: seq<string> := [];
    var aRange: Option<seq<string>> := None;
    for i := 0 to |tokens|
      invariant ExpandFrom(ks[i..], ports, aRange) == Expand(spec)
    {
      assert ks[i..][0] == ks[i] && ks[i..][1..] == ks[i + 1..];
      var step := ReadToken(tokens[i], aRange);
      if step.Err? {
        return step.error;
      }
      aRange := Some(step.value);
      ports := AppendAll(ports, step.value);
    }
    assert ks[|tokens|..] == [];
    return Ports(ports);
  }

  /** `for port in a_range: ports.append(port)`. */
  method AppendAll(ports: seq<string>, names: seq<string>) returns (r: seq<string>)
    ensures r == ports + names
  {
    r := ports;
    for k := 0 to |names|
      invariant r == ports + names[..k]
    {
      r := r + [names[k]];
    }
    assert names[..|names|] == names;
  }

  /** The body of the loop up to the appending: split, read the bounds, check the limit. */
  method ReadToken(t: string, aRange: Option<seq<string>>) returns (step: Result<seq<string>, Expansion>)
    ensures step == Step(Classify(t), aRange)
  {
    var parts := Split(t, "-");
    if |parts| == 2 {
      var from := ParseInt(parts[0]);
      if from.None? {
        return Err(IntFault);
      }
      var to := ParseInt(parts[1]);
      if to.None? {
        return Err(IntFault);
      }
      var upper := to.value + 1;
      if upper > PORT_LIMIT {
        return Err(NonExistentPort);
      }
      return Ok(RangeNames(from.value, upper));
    } else if |parts| == 1 {
      return Ok([PortName(t)]);
    }
    if aRange.None? {
      return Err(UnboundRange);
    }
    return Ok(aRange.value);
  }

  /** A range whose upper bound is above the last port. */
  predicate TooHigh(k: Token)
  {
    k.Span? && k.stop > PORT_LIMIT
  }

  /** The token reads as a range or a single port, so it contributes names. */
  predicate Expands(k: Token)
  {
    (k.Span? && k.stop <= PORT_LIMIT) || k.Single?
  }

  /** The names one well-formed token contributes. */
  function TokenNames(k: Token): seq<string>
  {
    match k
    case Span(a, b) => RangeNames(a, b)
    case Single(x) => [PortName(x)]
    case _ => []
  }

  /** The tokens' names one after the other. */
  function AllNames(ks: seq<Token>): seq<string>
  {
    if ks == [] then [] else TokenNames(ks[0]) + AllNames(ks[1..])
  }

  lemma {:induction false} AllNamesAppend(ks: seq<Token>, ls: seq<Token>)
    ensures AllNames(ks + ls) == AllNames(ks) + AllNames(ls)
  {
    if ks == [] {
      assert ks + ls == ls;
    } else {
      assert (ks + ls)[1..] == ks[1..] + ls;
      AllNamesAppend(ks[1..], ls);
    }
  }

  /** A well-formed token's step appends its names, whatever came before. */
  lemma StepOfExpanding(k: Token, prev: Option<seq<string>>)
    requires Expands(k)
    ensures Step(k, prev) == Ok(TokenNames(k))
  {
  }

  /** Well-formed tokens are expanded in input order and simply concatenated. */
  lemma {:induction false} ExpandFromConcatenates(ks: seq<Token>, ports: seq<string>, prev: Option<seq<string>>)
    requires forall k :: k in ks ==> Expands(k)
    ensures ExpandFrom(ks, ports, prev) == Ports(ports + AllNames(ks))
  {
    if ks == [] {
      assert ports + [] == ports;
    } else {
      var k := ks[0];
      assert k in ks;
      var names := TokenNames(k);
      StepOfExpanding(k, prev);
      ExpandFromConcatenates(ks[1..], ports + names, Some(names));
      assert ports + names + AllNames(ks[1..]) == ports + AllNames(ks);
    }
  }

  /** The tokens before a fault are expanded; the outcome is then decided from the faulty token on. */
  lemma {:induction false} ExpandFromPrefix(ks: seq<Token>, i: int, ports: seq<string>, prev: Option<seq<string>>)
    requires 0 < i <= |ks|
    requires forall j :: 0 <= j < i ==> Expands(ks[j])
    ensures ExpandFrom(ks, ports, prev) ==
      ExpandFrom(ks[i..], ports + AllNames(ks[..i]), Some(TokenNames(ks[i - 1])))
  {
    var names := TokenNames(ks[0]);
    ExpandFromStep(ks, ports, prev);
    PrefixNames(ks, i);
    if i == 1 {
      assert ks[1..i] == [] && ks[1..] == ks[i..];
      assert names + [] == names;
    } else {
      ExpandFromPrefix(ks[1..], i - 1, ports + names, Some(names));
      assert ks[1..][i - 1..] == ks[i..] && ks[1..][..i - 1] == ks[1..i] && ks[1..][i - 2] == ks[i - 1];
      assert ports + names + AllNames(ks[1..i]) == ports + (names + AllNames(ks[1..i]));
    }
  }

  /** A well-formed first token is expanded and the loop goes on with the rest. */
  lemma ExpandFromStep(ks: seq<Token>, ports: seq<string>, prev: Option<seq<string>>)
    requires ks != [] && Expands(ks[0])
    ensures ExpandFrom(ks, ports, prev) == ExpandFrom(ks[1..], ports + TokenNames(ks[0]), Some(TokenNames(ks[0])))
  {
    StepOfExpanding(ks[0], prev);
  }

  lemma PrefixNames(ks: seq<Token>, i: int)
    requires 0 < i <= |ks|
    ensures AllNames(ks[..i]) == TokenNames(ks[0]) + AllNames(ks[1..i])
  {
    assert ks[..i][0] == ks[0] && ks[..i][1..] == ks[1..i];
  }

  /**
   * The only faults are the ones a token causes: `NonExistentPort` needs a
   * range ending above 48, `IntFault` a range with a non-integer bound,
   * `UnboundRange` a token of three or more parts. `IndexFault` never happens.
   */
  lemma {:induction false} ExpandFromFaults(ks: seq<Token>, ports: seq<string>, prev: Option<seq<string>>)
    ensures ExpandFrom(ks, ports, prev) != IndexFault
    ensures ExpandFrom(ks, ports, prev) == NonExistentPort ==> exists k :: k in ks && TooHigh(k)
    ensures ExpandFrom(ks, ports, prev) == IntFault ==> NotNumeric in ks
    ensures ExpandFrom(ks, ports, prev) == UnboundRange ==> Malformed in ks
  {
    if ks != [] {
      var step := Step(ks[0], prev);
      assert ks[0] in ks;
      if step.Ok? {
        ExpandFromFaults(ks[1..], ports + step.value, Some(step.value));
        if ExpandFrom(ks, ports, prev) == NonExistentPort {
          var k :| k in ks[1..] && TooHigh(k);
          assert k in ks;
        }
      }
    }
  }

  /** `port_range` never returns 'IndexFault', and each other sentinel has its cause among the tokens. */
  lemma ExpandFaults(spec: string)
    ensures Expand(spec) != IndexFault
    ensures Expand(spec) == NonExistentPort ==> exists t :: t in Split(spec, ",") && TooHigh(Classify(t))
    ensures Expand(spec) == IntFault ==> exists t :: t in Split(spec, ",") && Classify(t) == NotNumeric
    ensures Expand(spec) == UnboundRange ==> exists t :: t in Split(spec, ",") && Classify(t) == Malformed
  {
    var ts := Split(spec, ",");
    var ks := Classified(ts);
    ExpandFromFaults(ks, [], None);
    forall k | k in ks ensures exists t :: t in ts && Classify(t) == k {
      var i :| 0 <= i < |ks| && ks[i] == k;
      assert ts[i] in ts;
    }
  }

  /** When every token is a range or a single port, the result is their names in input order. */
  lemma ExpandConcatenates(spec: string)
    requires forall t :: t in Split(spec, ",") ==> Expands(Classify(t))
    ensures Expand(spec) == Ports(AllNames(Classified(Split(spec, ","))))
  {
    var ts := Split(spec, ",");
    var ks := Classified(ts);
    forall k | k in ks ensures Expands(k) {
      var i :| 0 <= i < |ks| && ks[i] == k;
      assert ts[i] in ts;
    }
    ExpandFromConcatenates(ks, [], None);
  }

  /**
   * The first token that is not a range or a single port decides the outcome:
   * a range above 48 gives `NonExistentPort`, a non-integer bound `IntFault`,
   * whatever the later tokens hold; a token of three or more parts repeats the
   * previous token's names, or fails when it comes first.
   */
  lemma ExpandFirstFault(ks: seq<Token>, i: int)
    requires 0 <= i < |ks|
    requires forall j :: 0 <= j < i ==> Expands(ks[j])
    ensures TooHigh(ks[i]) ==> ExpandFrom(ks, [], None) == NonExistentPort
    ensures ks[i] == NotNumeric ==> ExpandFrom(ks, [], None) == IntFault
    ensures ks[i] == Malformed && i == 0 ==> ExpandFrom(ks, [], None) == UnboundRange
    ensures ks[i] == Malformed && i > 0 ==>
      ExpandFrom(ks, [], None) ==
        ExpandFrom(ks[i + 1..], AllNames(ks[..i]) + TokenNames(ks[i - 1]), Some(TokenNames(ks[i - 1])))
  {
    if i > 0 {
      ExpandFromPrefix(ks, i, [], None);
      assert ks[i..][0] == ks[i] && ks[i..][1..] == ks[i + 1..];
      if ks[i] == Malformed {
        MalformedStep(ks[i..], [] + AllNames(ks[..i]), TokenNames(ks[i - 1]));
        assert [] + AllNames(ks[..i]) == AllNames(ks[..i]);
      }
    }
  }

  /** With a previous token, a token of three or more parts appends that token's names again. */
  lemma MalformedStep(ks: seq<Token>, ports: seq<string>, names: seq<string>)
    requires ks != [] && ks[0] == Malformed
    ensures ExpandFrom(ks, ports, Some(names)) == ExpandFrom(ks[1..], ports + names, Some(names))
  {
  }

  /** A token of three or more parts after a range repeats that range's names. */
  lemma MalformedRepeats(k: Token)
    requires Expands(k)
    ensures ExpandFrom([k, Malformed], [], None) == Ports(TokenNames(k) + TokenNames(k))
  {
    assert [k, Malformed][1..] == [Malformed];
    assert [Malformed][1..] == [];
  }

  /** A range token `A-B` names the ports `A`, `A + 1`, ..., `B` in ascending order. */
  lemma RangeNamesAscending(lo: int, hi: int)
    ensures forall k :: 0 <= k < |RangeNames(lo, hi)| ==> PortNumber(RangeNames(lo, hi)[k]) == Some(lo + k)
  {
    forall k | 0 <= k < |RangeNames(lo, hi)|
      ensures PortNumber(RangeNames(lo, hi)[k]) == Some(lo + k)
    {
      PortNumberOfName(lo + k);
    }
  }

  /** `A-B` splits at its one '-' into `A` and `B`. */
  lemma SplitTwoParts(t: string, a: string, b: string)
    requires t == a + "-" + b && '-' !in a && '-' !in b
    ensures Split(t, "-") == [a, b]
  {
    SplitAtFirst(a, b, '-');
    SplitWithoutSeparator(b, '-');
  }

  /** A token `A-B` is the range `range(A, B + 1)` when both bounds are integers, `NotNumeric` otherwise. */
  lemma ClassifyTwoParts(t: string, a: string, b: string)
    requires Split(t, "-") == [a, b]
    ensures ParseInt(a).Some? && ParseInt(b).Some? ==>
      Classify(t) == Span(ParseInt(a).value, ParseInt(b).value + 1)
    ensures ParseInt(a).None? || ParseInt(b).None? ==> Classify(t) == NotNumeric
  {
  }

  /** A token without '-' is used verbatim: no integer check and no bound check. */
  lemma ClassifySingle(t: string)
    requires '-' !in t
    ensures Classify(t) == Single(t)
    ensures TokenNames(Classify(t)) == [PortName(t)]
  {
    SplitWithoutSeparator(t, '-');
  }

  /** `A > B` contributes no names, and no fault. */
  lemma EmptyRange(lo: int, hi: int)
    requires lo >= hi && hi <= PORT_LIMIT
    ensures Expands(Span(lo, hi)) && TokenNames(Span(lo, hi)) == []
  {
  }

  /** `"1-8,11-21"` gives `Gi1/0/1..8` then `Gi1/0/11..21`: nineteen names, no reordering. */
  lemma TwoRangesExample(spec: string)
    requires spec == "1-8,11-21"
    ensures Expand(spec) == Ports(RangeNames(1, 9) + RangeNames(11, 22))
    ensures |RangeNames(1, 9) + RangeNames(11, 22)| == 19
  {
    var a, b, c, d := "1", "8", "11", "21";
    ParsedLiterals(a, b, c, d);
    assert spec == (a + "-" + b) + "," + (c + "-" + d);
    TwoRanges(spec, a + "-" + b, c + "-" + d, a, b, c, d, 1, 8, 11, 21);
  }

  /** Two range tokens `A-B,C-D` with integer bounds at most 48 give the two ranges, in order. */
  lemma TwoRanges(spec: string, t: string, u: string, a: string, b: string, c: string, d: string,
                  w: int, x: int, y: int, z: int)
    requires ParseInt(a) == Some(w) && ParseInt(b) == Some(x) && ParseInt(c) == Some(y) && ParseInt(d) == Some(z)
    requires x <= 48 && z <= 48
    requires '-' !in a && '-' !in b && '-' !in c && '-' !in d
    requires ',' !in a && ',' !in b && ',' !in c && ',' !in d
    requires t == a + "-" + b && u == c + "-" + d && spec == t + "," + u
    ensures Expand(spec) == Ports(RangeNames(w, x + 1) + RangeNames(y, z + 1))
  {
    TwoTokens(spec, t, u);
    SplitTwoParts(t, a, b);
    SplitTwoParts(u, c, d);
    ClassifyTwoParts(t, a, b);
    ClassifyTwoParts(u, c, d);
    var k, l := Span(w, x + 1), Span(y, z + 1);
    assert Classify(t) == k && Classify(u) == l;
    TwoExpanding(k, l);
  }

  /** A specification with one ',' is read as its two tokens. */
  lemma TwoTokens(spec: string, t: string, u: string)
    requires ',' !in t && ',' !in u && spec == t + "," + u
    ensures Expand(spec) == ExpandFrom([Classify(t), Classify(u)], [], None)
  {
    SplitAtFirst(t, u, ',');
    SplitWithoutSeparator(u, ',');
    assert Split(spec, ",") == [t, u];
    assert Classified([t, u]) == [Classify(t), Classify(u)];
  }

  /** Two well-formed tokens give their names one after the other. */
  lemma TwoExpanding(k: Token, l: Token)
    requires Expands(k) && Expands(l)
    ensures ExpandFrom([k, l], [], None) == Ports(TokenNames(k) + TokenNames(l))
  {
    StepOfExpanding(k, None);
    StepOfExpanding(l, Some(TokenNames(k)));
    assert [k, l][1..] == [l] && [l][1..] == [];
    assert [] + TokenNames(k) == TokenNames(k);
    assert ExpandFrom([k, l], [], None) == ExpandFrom([l], TokenNames(k), Some(TokenNames(k)));
    assert ExpandFrom([l], TokenNames(k), Some(TokenNames(k))) ==
      ExpandFrom([], TokenNames(k) + TokenNames(l), Some(TokenNames(l)));
  }

  lemma ParsedLiterals(a: string, b: string, c: string, d: string)
    requires a == "1" && b == "8" && c == "11" && d == "21"
    ensures ParseInt(a) == Some(1) && ParseInt(b) == Some(8)
    ensures ParseInt(c) == Some(11) && ParseInt(d) == Some(21)
    ensures '-' !in a && '-' !in b && '-' !in c && '-' !in d
    ensures ',' !in a && ',' !in b && ',' !in c && ',' !in d
  {
    assert IntString(1) == a && IntString(8) == b;
    assert IntString(11) == c && IntString(21) == d;
    ParseIntString(1);
    ParseIntString(8);
    ParseIntString(11);
    ParseIntString(21);
  }

  /** `"a-5"` and `"-5"` are refused with 'IntFault'. */
  lemma NonNumericExamples(x: string, y: string)
    requires x == "a-5" && y == "-5"
    ensures Expand(x) == IntFault && Expand(y) == IntFault
  {
    NonNumeric(x, "a", "5");
    NonNumeric(y, "", "5");
  }

  lemma NonNumeric(t: string, a: string, b: string)
    requires t == a + "-" + b && ',' !in t && '-' !in a && '-' !in b && ParseInt(a).None?
    ensures Expand(t) == IntFault
  {
    SplitWithoutSeparator(t, ',');
    SplitTwoParts(t, a, b);
    ClassifyTwoParts(t, a, b);
    assert Classified([t]) == [NotNumeric];
  }
}
