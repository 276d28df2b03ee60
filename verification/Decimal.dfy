/** Go's `%d` verb. */
module Decimal {
  import opened Bytes

  predicate IsDigits(s: str) {
    forall i :: 0 <= i < |s| ==> 48 <= s[i] <= 57
  }

  function Natural(n: nat): (s: str)
    ensures s != [] && IsDigits(s)
  {
    if n < 10 then [48 + n] else Natural(n / 10) + [48 + n % 10]
  }

  function Format(n: int): (s: str)
    ensures BAR !in s
  {
    if n < 0 then [MINUS] + Natural(-n) else Natural(n)
  }

  lemma {:induction false} NaturalInjective(a: nat, b: nat)
    requires Natural(a) == Natural(b)
    ensures a == b
  {
    if a >= 10 && b >= 10 {
      var s, t := Natural(a / 10), Natural(b / 10);
      assert (s + [48 + a % 10])[|s|] == (t + [48 + b % 10])[|t|];
      SplitAtLength(s, [48 + a % 10], t, [48 + b % 10]);
      NaturalInjective(a / 10, b / 10);
    }
  }

  lemma FormatInjective(a: int, b: int)
    requires Format(a) == Format(b)
    ensures a == b
  {
    assert (a < 0 <==> Format(a)[0] == MINUS) && (b < 0 <==> Format(b)[0] == MINUS);
    if a >= 0 {
      NaturalInjective(a, b);
    } else {
      assert Natural(-a) == Format(a)[1..] && Natural(-b) == Format(b)[1..];
      NaturalInjective(-a, -b);
    }
  }

  // ----- What the digits say

  /** The number a string of digits stands for. */
  function Value(s: str): int {
    if s == [] then 0 else 10 * Value(s[..|s| - 1]) + s[|s| - 1] - 48
  }

  /** The number a string stands for that may start with a minus. */
  function Read(s: str): int {
    if s != [] && s[0] == MINUS then -Value(s[1..]) else Value(s)
  }

  /** The digits of a number stand for it, and only 0 starts with a `0`. */
  lemma {:induction false} NaturalMeans(n: nat)
    ensures Value(Natural(n)) == n
    ensures forall i :: 0 <= i < |Natural(n)| ==> 48 <= Natural(n)[i] <= 57
    ensures Natural(n)[0] == 48 <==> n == 0
  {
    if n >= 10 {
      NaturalMeans(n / 10);
      var s := Natural(n / 10);
      assert (s + [48 + n % 10])[..|s|] == s;
      assert Natural(n)[0] == s[0];
    } else {
      assert [48 + n][..0] == [];
    }
  }

  /** There is one way to write a number: digits with no `0` in front. */
  lemma {:induction false} NaturalIsOnly(s: str)
    requires s != [] && (forall i :: 0 <= i < |s| ==> 48 <= s[i] <= 57) && (s[0] == 48 ==> |s| == 1)
    ensures Value(s) >= 0 && Natural(Value(s)) == s
    ensures s[0] != 48 ==> Value(s) > 0
  {
    var init, d: int := s[..|s| - 1], s[|s| - 1] - 48;
    if init != [] {
      NaturalIsOnly(init);
      assert Value(s) == 10 * Value(init) + d && Value(s) / 10 == Value(init) && Value(s) % 10 == d;
      assert s == init + [48 + d];
    } else {
      assert s == [48 + d] && Value(s) == d;
    }
  }

  /** `%d` writes a number in decimal, after a minus when it is negative. */
  lemma {:induction false} FormatMeans(n: int)
    ensures Read(Format(n)) == n
    ensures Format(n)[0] == MINUS <==> n < 0
    ensures Format(n) == if n < 0 then [MINUS] + Natural(-n) else Natural(n)
  {
    NaturalMeans(if n < 0 then -n else n);
    if n < 0 {
      assert Format(n)[1..] == Natural(-n);
    }
  }
}
