/** Decimal text of integers, as JavaScript writes them with `String(x)` (or
    `[x, y].join(' ')`) and reads them back with `Number(s)`, plus
    `s.split(' ')`. Only integers below 10^21 in magnitude are written this
    way by JavaScript; the node ids and labels of the benchmark are far
    smaller. */
module Decimal {
  function DigitChar(d: nat): char
    requires d < 10
  {
    ('0' as int + d) as char
  }

  function DigitValue(c: char): nat {
    if '0' <= c <= '9' then (c as int - '0' as int) as nat else 0
  }

  predicate IsDigit(c: char) {
    '0' <= c <= '9'
  }

  /** The digits of a natural number, most significant first, without
      leading zeros ("0" for zero). */
  function NatString(x: nat): string
    decreases x
  {
    if x < 10 then [DigitChar(x)] else NatString(x / 10) + [DigitChar(x % 10)]
  }

  /** The text of a natural number is a non-empty run of digits. */
  lemma {:induction false} NatStringDigits(x: nat)
    ensures |NatString(x)| > 0 && forall i :: 0 <= i < |NatString(x)| ==> IsDigit(NatString(x)[i])
    decreases x
  {
    if x >= 10 {
      NatStringDigits(x / 10);
    }
  }

  /** `String(x)` for an integer `x`. */
  function IntString(x: int): string {
    (if x < 0 then "-" else "") + NatString(if x < 0 then -x else x)
  }

  /** The text of an integer is not empty and holds no space. */
  lemma IntStringNoSpace(x: int)
    ensures |IntString(x)| > 0 && ' ' !in IntString(x)
  {
    var s := NatString(if x < 0 then -x else x);
    NatStringDigits(if x < 0 then -x else x);
    assert forall i :: 0 <= i < |s| ==> s[i] != ' ';
    if x < 0 {
      assert forall i :: 0 <= i < |"-" + s| ==> ("-" + s)[i] != ' ';
    }
  }

  /** `Number(s)` on a string of decimal digits, read left to right. */
  function ParseNat(s: string): nat
    decreases |s|
  {
    if s == [] then 0 else 10 * ParseNat(s[..|s| - 1]) + DigitValue(s[|s| - 1])
  }

  /** `Number(s)` on an optional minus sign followed by decimal digits. */
  function ParseInt(s: string): int {
    if |s| > 0 && s[0] == '-' then -(ParseNat(s[1..]) as int) else ParseNat(s)
  }

  /** Reading back what `NatString` writes gives the number. */
  lemma {:induction false} ParseNatString(x: nat)
    ensures ParseNat(NatString(x)) == x
    decreases x
  {
    if x < 10 {
      assert NatString(x)[..0] == [];
    } else {
      var s := NatString(x);
      assert s[..|s| - 1] == NatString(x / 10);
      ParseNatString(x / 10);
    }
  }

  /** `Number(String(x)) == x`: the decimal text of an integer reads back
      as that integer, so `IntString` is injective. */
  lemma ParseIntString(x: int)
    ensures ParseInt(IntString(x)) == x
  {
    if x < 0 {
      var s := NatString(-x);
      assert IntString(x) == "-" + s;
      assert ("-" + s)[1..] == s;
      ParseNatString(-x);
    } else {
      var s := NatString(x);
      NatStringDigits(x);
      assert IntString(x) == s;
      assert IsDigit(s[0]);
      ParseNatString(x);
    }
  }

  lemma IntStringInjective(x: int, y: int)
    requires IntString(x) == IntString(y)
    ensures x == y
  {
    ParseIntString(x);
    ParseIntString(y);
  }

  /** `s.split(' ')`: the pieces between the spaces, in order. */
  function SplitSpace(s: string): (pieces: seq<string>)
    ensures |pieces| > 0
    decreases |s|
  {
    if s == [] then [""]
    else
      var rest := SplitSpace(s[1..]);
      if s[0] == ' ' then [""] + rest else [[s[0]] + rest[0]] + rest[1..]
  }

  /** Splitting `a + " " + b` at spaces gives back `a` and `b` when neither
      holds a space. */
  lemma {:induction false} SplitJoined(a: string, b: string)
    requires ' ' !in a && ' ' !in b
    ensures SplitSpace(a + " " + b) == [a, b]
    decreases |a|
  {
    if a == [] {
      assert (a + " " + b)[1..] == b;
      SplitNoSpace(b);
    } else {
      assert (a + " " + b)[1..] == a[1..] + " " + b;
      SplitJoined(a[1..], b);
      assert a == [a[0]] + a[1..];
    }
  }

  lemma {:induction false} SplitNoSpace(s: string)
    requires ' ' !in s
    ensures SplitSpace(s) == [s]
    decreases |s|
  {
    if s != [] {
      SplitNoSpace(s[1..]);
      assert s == [s[0]] + s[1..];
    }
  }
}
