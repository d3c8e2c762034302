/**
 * The handful of Python string operations the scripts rely on, written out:
 * `str.split(sep)`, `sep.join(parts)`, filtering characters out of a string,
 * `in` between two strings, `int(s)` on a string and `'{}'.format(n)` on an int.
 */
module Text {
  import opened Wrappers

  /** `sep.join(parts)`. */
  function Join(parts: seq<string>, sep: string): string
  {
    if |parts| == 0 then ""
    else if |parts| == 1 then parts[0]
    else parts[0] + sep + Join(parts[1..], sep)
  }

  /**
   * `s.split(sep)` for a non-empty separator: the pieces between the
   * occurrences of `sep`, found left to right without overlap. There is
   * always at least one piece (`"".split(",") == [""]`).
   */
  function Split(s: string, sep: string): (r: seq<string>)
    requires |sep| > 0
    ensures |r| >= 1
    decreases |s|
  {
    if |s| < |sep| then [s]
    else if s[..|sep|] == sep then [""] + Split(s[|sep|..], sep)
    else
      var rest := Split(s[1..], sep);
      [[s[0]] + rest[0]] + rest[1..]
  }

  /** Prepending to the first piece prepends to the joined string. */
  lemma JoinPrependFirst(x: string, p: string, ps: seq<string>, sep: string)
    ensures Join([x + p] + ps, sep) == x + Join([p] + ps, sep)
  {
    if |ps| > 0 {
      assert ([x + p] + ps)[1..] == ps;
      assert ([p] + ps)[1..] == ps;
    }
  }

  /** A string without the separator is a single piece. */
  lemma {:induction false} SplitWithoutSeparator(s: string, c: char)
    requires c !in s
    ensures Split(s, [c]) == [s]
  {
    if s != [] {
      SplitWithoutSeparator(s[1..], c);
      assert s[..1] != [c] by {
        assert s[..1][0] == s[0];
      }
      assert [s[0]] + s[1..] == s;
    }
  }

  /** Splitting at the first separator: the text before it is the first piece. */
  lemma {:induction false} SplitAtFirst(a: string, b: string, c: char)
    requires c !in a
    ensures Split(a + [c] + b, [c]) == [a] + Split(b, [c])
    decreases |a|
  {
    var s := a + [c] + b;
    if a == [] {
      assert s[..1] == [c] && s[1..] == b;
    } else {
      assert s[..1] != [c] by {
        assert s[..1][0] == a[0];
      }
      assert s[1..] == a[1..] + [c] + b;
      SplitAtFirst(a[1..], b, c);
      assert [a[0]] + a[1..] == a;
    }
  }

  /** Joining the pieces of a split with the same separator gives the string back. */
  lemma {:induction false} JoinSplit(s: string, sep: string)
    requires |sep| > 0
    ensures Join(Split(s, sep), sep) == s
    decreases |s|
  {
    if |s| < |sep| {
    } else if s[..|sep|] == sep {
      var rest := Split(s[|sep|..], sep);
      JoinSplit(s[|sep|..], sep);
      JoinAfterEmpty(rest, sep);
      assert Split(s, sep) == [""] + rest;
      assert s == sep + s[|sep|..];
    } else {
      var rest := Split(s[1..], sep);
      JoinSplit(s[1..], sep);
      assert Split(s, sep) == [[s[0]] + rest[0]] + rest[1..];
      JoinPrependFirst([s[0]], rest[0], rest[1..], sep);
      assert [rest[0]] + rest[1..] == rest;
      assert s == [s[0]] + s[1..];
    }
  }

  /** An empty first piece contributes only the separator. */
  lemma JoinAfterEmpty(rest: seq<string>, sep: string)
    requires |rest| >= 1
    ensures Join([""] + rest, sep) == sep + Join(rest, sep)
  {
    assert ([""] + rest)[0] == "" && ([""] + rest)[1..] == rest;
  }

  /** No piece of a split on one character contains that character. */
  lemma {:induction false} SplitPiecesAvoidSeparator(s: string, c: char)
    ensures forall i :: 0 <= i < |Split(s, [c])| ==> c !in Split(s, [c])[i]
    decreases |s|
  {
    if |s| >= 1 {
      SplitPiecesAvoidSeparator(s[1..], c);
      if s[..1] != [c] {
        assert s[0] != c;
        var rest := Split(s[1..], [c]);
        assert c !in rest[0];
        assert c !in [s[0]] + rest[0];
      }
    }
  }

  /** The characters of `s` for which `drop` is false, in their order. */
  function Without(s: string, drop: char -> bool): (r: string)
    ensures |r| <= |s|
  {
    if s == [] then []
    else (if drop(s[0]) then [] else [s[0]]) + Without(s[1..], drop)
  }

  /** Nothing the filter drops is left in its result, and every character it
      keeps is. */
  lemma {:induction false} WithoutDrops(s: string, drop: char -> bool)
    ensures forall i :: 0 <= i < |Without(s, drop)| ==> !drop(Without(s, drop)[i])
    ensures forall c :: c in Without(s, drop) <==> c in s && !drop(c)
  {
    if s != [] {
      WithoutDrops(s[1..], drop);
      var head := if drop(s[0]) then [] else [s[0]];
      assert Without(s, drop) == head + Without(s[1..], drop);
      assert s == [s[0]] + s[1..];
    }
  }

  /** Filtering distributes over concatenation. */
  lemma {:induction false} WithoutAppend(a: string, b: string, drop: char -> bool)
    ensures Without(a + b, drop) == Without(a, drop) + Without(b, drop)
    decreases |a|
  {
    if a != [] {
      assert (a + b)[1..] == a[1..] + b;
      WithoutAppend(a[1..], b, drop);
    } else {
      assert a + b == b;
    }
  }

  /** Filtering leaves a string unchanged when nothing in it is dropped. */
  lemma {:induction false} WithoutKeepsAll(s: string, drop: char -> bool)
    requires forall i :: 0 <= i < |s| ==> !drop(s[i])
    ensures Without(s, drop) == s
    decreases |s|
  {
    if s != [] {
      assert forall i :: 0 <= i < |s[1..]| ==> !drop(s[1..][i]);
      WithoutKeepsAll(s[1..], drop);
    }
  }

  /** ... and only then: a string that loses a character is changed. */
  lemma WithoutFixpoint(s: string, drop: char -> bool)
    ensures Without(s, drop) == s <==> forall i :: 0 <= i < |s| ==> !drop(s[i])
  {
    if forall i :: 0 <= i < |s| ==> !drop(s[i]) {
      WithoutKeepsAll(s, drop);
    } else {
      WithoutDrops(s, drop);
    }
  }

  /** `''.join(s.split(c))`: every occurrence of `c` removed. */
  lemma {:induction false} JoinSplitRemoves(s: string, c: char, drop: char -> bool)
    requires forall x :: drop(x) <==> x == c
    ensures Join(Split(s, [c]), "") == Without(s, drop)
    decreases |s|
  {
    if |s| >= 1 {
      var rest := Split(s[1..], [c]);
      JoinSplitRemoves(s[1..], c, drop);
      if s[..1] == [c] {
        assert s[0] == c;
        assert ([""] + rest)[1..] == rest;
      } else {
        assert s[0] != c;
        JoinPrependFirst([s[0]], rest[0], rest[1..], "");
        assert [rest[0]] + rest[1..] == rest;
      }
    }
  }

  /** `str.isdigit` on one ASCII character. */
  predicate IsDigit(c: char)
  {
    '0' <= c <= '9'
  }

  predicate AllDigits(s: string)
  {
    forall i :: 0 <= i < |s| ==> IsDigit(s[i])
  }

  /** The whitespace `int()` skips around a number (ASCII space, \t to \r, \x1c to \x1f). */
  predicate IsSpace(c: char)
  {
    c == ' ' || '\t' <= c <= '\r' || '\U{001C}' <= c <= '\U{001F}'
  }

  function TrimStart(s: string): (r: string)
  {
    if s != [] && IsSpace(s[0]) then TrimStart(s[1..]) else s
  }

  function TrimEnd(s: string): (r: string)
  {
    if s != [] && IsSpace(s[|s| - 1]) then TrimEnd(s[..|s| - 1]) else s
  }

  /** The value of a string of decimal digits, most significant first. */
  function DigitsValue(d: string): nat
    requires AllDigits(d)
  {
    if d == [] then 0
    else DigitsValue(d[..|d| - 1]) * 10 + (d[|d| - 1] as int - '0' as int)
  }

  /**
   * Python's `int(s)` on a string: surrounding whitespace, an optional sign and
   * one or more decimal digits; anything else raises ValueError, here None.
   */
  function ParseInt(s: string): Option<int>
  {
    ParseSigned(TrimEnd(TrimStart(s)))
  }

  /** `int()` once the whitespace is gone. */
  function ParseSigned(t: string): Option<int>
  {
    if t != [] && (t[0] == '+' || t[0] == '-') then
      var d := t[1..];
      if d != [] && AllDigits(d) then
        Some(if t[0] == '-' then -(DigitsValue(d) as int) else DigitsValue(d))
      else None
    else if t != [] && AllDigits(t) then Some(DigitsValue(t))
    else None
  }

  function Digit(n: nat): (c: char)
    requires n < 10
    ensures IsDigit(c)
  {
    ('0' as int + n) as char
  }

  /** `str(n)`, or `'{}'.format(n)`, for an int: a '-' before the digits of a negative. */
  function IntString(n: int): (r: string)
    ensures r != []
    decreases if n < 0 then 1 - n else n
  {
    if n < 0 then "-" + IntString(-n)
    else if n < 10 then [Digit(n)]
    else IntString(n / 10) + [Digit(n % 10)]
  }

  /** `str(n)` of a natural number is made of decimal digits only, and they spell `n`. */
  lemma {:induction false} DigitsValueOfIntString(n: nat)
    ensures AllDigits(IntString(n)) && DigitsValue(IntString(n)) == n
  {
    if n >= 10 {
      DigitsValueOfIntString(n / 10);
      var r := IntString(n);
      assert r[..|r| - 1] == IntString(n / 10);
    }
  }

  /** A string that neither starts nor ends with whitespace is its own trimmed form. */
  lemma TrimmedAlready(s: string)
    requires s != [] && !IsSpace(s[0]) && !IsSpace(s[|s| - 1])
    ensures TrimEnd(TrimStart(s)) == s
  {
  }

  /** `int(str(n)) == n`: formatting an int and parsing it back is the identity. */
  lemma ParseIntString(n: int)
    ensures ParseInt(IntString(n)) == Some(n)
  {
    if n < 0 {
      ParseNegativeString(n);
    } else {
      ParseNatString(n);
    }
  }

  lemma ParseNatString(n: int)
    requires n >= 0
    ensures ParseInt(IntString(n)) == Some(n)
  {
    DigitsValueOfIntString(n);
    ParseDigits(IntString(n));
  }

  lemma ParseNegativeString(n: int)
    requires n < 0
    ensures ParseInt(IntString(n)) == Some(n)
  {
    DigitsValueOfIntString(-n);
    assert IntString(n) == "-" + IntString(-n);
    ParseNegative(IntString(n), IntString(-n));
  }



  lemma ParseDigits(d: string)
    requires d != [] && AllDigits(d)
    ensures ParseInt(d) == Some(DigitsValue(d))
  {
    assert IsDigit(d[0]) && IsDigit(d[|d| - 1]);
    TrimmedAlready(d);
  }

  lemma ParseNegative(s: string, d: string)
    requires d != [] && AllDigits(d) && s == "-" + d
    ensures ParseInt(s) == Some(-(DigitsValue(d) as int))
  {
    assert IsDigit(s[|s| - 1]);
    TrimmedAlready(s);
    assert s[1..] == d;
  }



  /** Python's `needle in hay` between two strings. */
  predicate IsSubstring(needle: string, hay: string)
    decreases |hay|
  {
    needle <= hay || (hay != [] && IsSubstring(needle, hay[1..]))
  }

  /** Every character of a substring occurs in the containing string. */
  lemma {:induction false} SubstringChars(needle: string, hay: string, c: char)
    requires IsSubstring(needle, hay) && c in needle
    ensures c in hay
    decreases |hay|
  {
    if !(needle <= hay) {
      SubstringChars(needle, hay[1..], c);
    }
  }
}
