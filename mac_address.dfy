/**
 * Regrouping a switch's dotted MAC address (`7079.b3fd.0960`) into the
 * colon-separated pairs the inventory service is queried with
 * (`70:79:b3:fd:09:60`): drop the dots, cut into two-character chunks and join
 * them with ':'. Nothing is validated or lower-cased on the way.
 */
module MacAddress {
  import opened Text

  predicate IsDot(c: char) { c == '.' }

  predicate IsColon(c: char) { c == ':' }

  /** `[s[i:i+2] for i in range(0, len(s), 2)]`. */
  function Pairs(s: string): (r: seq<string>)
    ensures |r| == (|s| + 1) / 2
  {
    if s == [] then []
    else if |s| <= 2 then [s]
    else [s[..2]] + Pairs(s[2..])
  }

  /** `':'.join(pairs)` of `''.join(mac.split('.'))`. */
  function ColonGrouped(mac: string): string
  {
    Join(Pairs(Join(Split(mac, "."), "")), ":")
  }

  /** The dot-free text that gets regrouped is the address with its dots removed. */
  lemma DotsRemoved(mac: string)
    ensures Join(Split(mac, "."), "") == Without(mac, IsDot)
  {
    JoinSplitRemoves(mac, '.', IsDot);
  }

  /** Joining the chunks with ':' only adds colons: removing them leaves the text without its colons. */
  lemma {:induction false} JoinedPairsWithoutColons(t: string)
    ensures Without(Join(Pairs(t), ":"), IsColon) == Without(t, IsColon)
    decreases |t|
  {
    if |t| > 2 {
      var rest := Pairs(t[2..]);
      assert ([t[..2]] + rest)[1..] == rest;
      var joined := Join(rest, ":");
      JoinedPairsWithoutColons(t[2..]);
      WithoutAppend(t[..2] + ":", joined, IsColon);
      WithoutAppend(t[..2], ":", IsColon);
      WithoutAppend(t[..2], t[2..], IsColon);
      assert t == t[..2] + t[2..];
    }
  }

  /**
   * Deleting the colons from the regrouped address gives back the address with
   * its dots (and any colons) deleted; for an address without colons, exactly the
   * dot-stripped input.
   */
  lemma ColonGroupedRoundTrip(mac: string)
    ensures Without(ColonGrouped(mac), IsColon) == Without(Without(mac, IsDot), IsColon)
    ensures (forall i :: 0 <= i < |mac| ==> mac[i] != ':') ==>
      Without(ColonGrouped(mac), IsColon) == Without(mac, IsDot)
  {
    DotsRemoved(mac);
    JoinedPairsWithoutColons(Without(mac, IsDot));
    var t := Without(mac, IsDot);
    if forall i :: 0 <= i < |mac| ==> mac[i] != ':' {
      NoColonSurvives(mac);
      WithoutKeepsAll(t, IsColon);
    }
  }

  lemma {:induction false} NoColonSurvives(mac: string)
    requires forall i :: 0 <= i < |mac| ==> mac[i] != ':'
    ensures forall i :: 0 <= i < |Without(mac, IsDot)| ==> !IsColon(Without(mac, IsDot)[i])
  {
    if mac != [] {
      NoColonSurvives(mac[1..]);
      var head := if IsDot(mac[0]) then [] else [mac[0]];
      assert Without(mac, IsDot) == head + Without(mac[1..], IsDot);
    }
  }

  /** One step of the regrouping: the first chunk, a colon, then the rest regrouped. */
  lemma JoinedPairsUnfold(t: string)
    requires |t| > 2
    ensures Join(Pairs(t), ":") == t[..2] + ":" + Join(Pairs(t[2..]), ":")
  {
    assert ([t[..2]] + Pairs(t[2..]))[1..] == Pairs(t[2..]);
  }

  /**
   * The shape of the regrouped text: for `2m` characters it has `3m - 1`, every
   * third character is ':' and the others are the input's, in order.
   */
  lemma {:induction false} JoinedPairsShape(t: string, m: nat)
    requires m >= 1 && |t| == 2 * m
    ensures |Join(Pairs(t), ":")| == 3 * m - 1
    ensures forall k :: 0 <= k < 3 * m - 1 ==>
      Join(Pairs(t), ":")[k] == if k % 3 == 2 then ':' else t[k - k / 3]
  {
    if m > 1 {
      JoinedPairsUnfold(t);
      JoinedPairsShape(t[2..], m - 1);
      forall k | 0 <= k < 3 * m - 1
        ensures Join(Pairs(t), ":")[k] == if k % 3 == 2 then ':' else t[k - k / 3]
      {
        ShapeAt(t, Join(Pairs(t[2..]), ":"), m, k);
      }
    }
  }

  /** One position of the regrouped text, from the shape of the regrouped rest. */
  lemma ShapeAt(t: string, tail: string, m: nat, k: int)
    requires m > 1 && |t| == 2 * m && |tail| == 3 * m - 4
    requires forall k :: 0 <= k < 3 * m - 4 ==>
      tail[k] == if k % 3 == 2 then ':' else t[2..][k - k / 3]
    requires 0 <= k < 3 * m - 1
    ensures (t[..2] + ":" + tail)[k] == if k % 3 == 2 then ':' else t[k - k / 3]
  {
    var g := t[..2] + ":" + tail;
    if k < 3 {
      assert k / 3 == 0 && k % 3 == k;
    } else {
      ShiftByThree(k);
      assert g[k] == tail[k - 3];
    }
  }

  lemma ShiftByThree(k: int)
    requires k >= 3
    ensures (k - 3) % 3 == k % 3 && (k - 3) / 3 == k / 3 - 1
  {
  }

  /** A twelve-character address (once its dots are gone) regroups to seventeen characters `xx:xx:xx:xx:xx:xx`. */
  lemma TwelveDigitsBecomeSeventeen(mac: string)
    requires |Without(mac, IsDot)| == 12
    ensures |ColonGrouped(mac)| == 17
    ensures forall k :: 0 <= k < 17 ==> (ColonGrouped(mac)[k] == ':' <== k % 3 == 2)
    ensures forall k :: 0 <= k < 17 && k % 3 != 2 ==>
      ColonGrouped(mac)[k] == Without(mac, IsDot)[k - k / 3]
  {
    DotsRemoved(mac);
    JoinedPairsShape(Without(mac, IsDot), 6);
  }

  /** The example from the script's comment: `7079.b3fd.0960` becomes `70:79:b3:fd:09:60`. */
  lemma CiscoExample(mac: string)
    requires mac == "7079.b3fd.0960"
    ensures ColonGrouped(mac) == "70:79:b3:fd:09:60"
  {
    ExampleInGroups(mac, "7079", "b3fd", "0960");
  }

  lemma ExampleInGroups(mac: string, a: string, b: string, c: string)
    requires a == "7079" && b == "b3fd" && c == "0960" && mac == a + "." + b + "." + c
    ensures ColonGrouped(mac) == "70:79:b3:fd:09:60"
  {
    DotsRemoved(mac);
    WithoutKeepsAll(a, IsDot);
    WithoutKeepsAll(b, IsDot);
    WithoutKeepsAll(c, IsDot);
    DottedGroupsJoined(a, b, c);
    ExampleRegrouped(a + b + c);
  }

  /** Removing the dots of `a.b.c` concatenates the groups when they hold no dots. */
  lemma DottedGroupsJoined(a: string, b: string, c: string)
    requires Without(a, IsDot) == a && Without(b, IsDot) == b && Without(c, IsDot) == c
    ensures Without(a + "." + b + "." + c, IsDot) == a + b + c
  {
    assert Without(".", IsDot) == "" by {
      assert "."[1..] == "";
    }
    WithoutAppend(a, ".", IsDot);
    assert Without(a + ".", IsDot) == a;
    WithoutAppend(a + ".", b, IsDot);
    assert Without(a + "." + b, IsDot) == a + b;
    WithoutAppend(a + "." + b, ".", IsDot);
    assert Without(a + "." + b + ".", IsDot) == a + b;
    WithoutAppend(a + "." + b + ".", c, IsDot);
  }

  lemma ExampleRegrouped(t: string)
    requires t == "7079b3fd0960"
    ensures Join(Pairs(t), ":") == "70:79:b3:fd:09:60"
  {
    TwelveRegrouped(t);
    ExamplePairs(t);
  }

  /** The six pairs of the example, colon separated, spell the expected address. */
  lemma ExamplePairs(t: string)
    requires t == "7079b3fd0960"
    ensures t[..2] + ":" + t[2..4] + ":" + t[4..6] + ":" + t[6..8] + ":" + t[8..10] + ":" + t[10..]
      == "70:79:b3:fd:09:60"
  {
    assert t[..2] == "70" && t[2..4] == "79" && t[4..6] == "b3";
    assert t[6..8] == "fd" && t[8..10] == "09" && t[10..] == "60";
  }

  /** Twelve characters regroup into their six pairs, colon separated. */
  lemma TwelveRegrouped(t: string)
    requires |t| == 12
    ensures Join(Pairs(t), ":") ==
      t[..2] + ":" + t[2..4] + ":" + t[4..6] + ":" + t[6..8] + ":" + t[8..10] + ":" + t[10..]
  {
    JoinedPairsUnfold(t);
    JoinedPairsUnfold(t[2..]);
    JoinedPairsUnfold(t[4..]);
    JoinedPairsUnfold(t[6..]);
    JoinedPairsUnfold(t[8..]);
    assert t[2..][2..] == t[4..] && t[4..][2..] == t[6..];
    assert t[6..][2..] == t[8..] && t[8..][2..] == t[10..];
    assert t[2..][..2] == t[2..4] && t[4..][..2] == t[4..6];
    assert t[6..][..2] == t[6..8] && t[8..][..2] == t[8..10];
    assert Join(Pairs(t[10..]), ":") == t[10..];
  }
}
