/** Go strings as byte sequences, Go's fixed-width integers, and the separators the node writes between fields. */
module Bytes {
  type byte = n: int | 0 <= n < 256
  type str = seq<byte>

  const TWO_TO_32 := 0x1_0000_0000
  const TWO_TO_63 := 0x8000_0000_0000_0000
  const TWO_TO_64 := 0x1_0000_0000_0000_0000

  type u32 = n: int | 0 <= n < TWO_TO_32
  type u64 = n: int | 0 <= n < TWO_TO_64
  type i64 = n: int | -TWO_TO_63 <= n < TWO_TO_63

  /** What Go keeps of a sum or product computed in 64 bits. */
  function Wrap64(n: nat): u64 {
    n % 0x1_0000_0000_0000_0000
  }

  lemma WrapSmall(n: nat)
    requires n < 0x1_0000_0000_0000_0000
    ensures Wrap64(n) == n
  {
  }

  lemma WrapSum(x: nat, y: nat)
    ensures Wrap64(Wrap64(x) + y) == Wrap64(x + y)
  {
    var q := x / 0x1_0000_0000_0000_0000;
    assert x == q * 0x1_0000_0000_0000_0000 + Wrap64(x);
  }

  /** Go's conversions between `int64` and `uint64`. */
  function ToUnsigned(n: i64): u64 {
    if n < 0 then n + TWO_TO_64 else n
  }

  function ToSigned(n: u64): i64 {
    if n < TWO_TO_63 then n else n - TWO_TO_64
  }

  const EQUALS: byte := 61
  const SEMICOLON: byte := 59
  const BAR: byte := 124
  const NUL: byte := 0
  const MINUS: byte := 45

  /** The separators as characters. */
  lemma Marks()
    ensures EQUALS == '=' as int && SEMICOLON == ';' as int && BAR == '|' as int && NUL == 0 && MINUS == '-' as int
  {
  }

  /** Go's `<` on strings: lexicographic on bytes. */
  predicate Less(a: str, b: str) {
    b != [] && (a == [] || a[0] < b[0] || (a[0] == b[0] && Less(a[1..], b[1..])))
  }

  lemma FirstBytes(a: str, b: str, i: nat)
    requires i <= |a| && i <= |b| && a[..i] == b[..i]
    ensures i > 0 ==> a[0] == b[0]
  {
    if i > 0 {
      assert a[..i][0] == b[..i][0];
    }
  }

  /** The first position where two strings differ decides, or where the smaller one ends. */
  lemma {:induction false} LessMeans(a: str, b: str)
    ensures Less(a, b) <==>
            exists i :: 0 <= i <= |a| && i < |b| && a[..i] == b[..i] && (i == |a| || a[i] < b[i])
  {
    if a != [] && b != [] && a[0] == b[0] {
      var x, y := a[1..], b[1..];
      LessMeans(x, y);
      if i :| 0 <= i <= |x| && i < |y| && x[..i] == y[..i] && (i == |x| || x[i] < y[i]) {
        assert a[..i + 1] == [a[0]] + x[..i] && b[..i + 1] == [b[0]] + y[..i];
      }
      if i :| 0 <= i <= |a| && i < |b| && a[..i] == b[..i] && (i == |a| || a[i] < b[i]) {
        FirstBytes(a, b, i);
        assert x[..i - 1] == a[..i][1..] && y[..i - 1] == b[..i][1..];
      }
    } else if b != [] && (a == [] || a[0] < b[0]) {
      assert a[..0] == b[..0];
    } else {
      forall i | 0 <= i <= |a| && i < |b| && a[..i] == b[..i]
        ensures i < |a| && a[i] >= b[i]
      {
        FirstBytes(a, b, i);
      }
    }
  }

  lemma LessTransitive(a: str, b: str, c: str)
    requires Less(a, b) && Less(b, c)
    ensures Less(a, c)
  {
  }

  lemma LessIrreflexive(a: str)
    ensures !Less(a, a)
  {
  }

  lemma {:induction false} LessTotal(a: str, b: str)
    ensures Less(a, b) || Less(b, a) || a == b
  {
    if a != [] && b != [] && a[0] == b[0] {
      LessTotal(a[1..], b[1..]);
      assert a == [a[0]] + a[1..] && b == [b[0]] + b[1..];
    }
  }

  /** A separator that occurs in neither prefix marks where the prefixes end. */
  lemma SplitAtSeparator(a: str, x: str, b: str, y: str, sep: byte)
    requires sep !in a && sep !in b
    requires a + [sep] + x == b + [sep] + y
    ensures a == b && x == y
  {
    var s := a + [sep] + x;
    assert s[|a|] == sep && s[|b|] == sep;
    assert forall i :: 0 <= i < |a| ==> s[i] == a[i];
    assert forall i :: 0 <= i < |b| ==> s[i] == b[i];
    assert |a| == |b|;
    assert a == s[..|a|] && b == s[..|b|];
    assert x == s[|a| + 1..] && y == s[|b| + 1..];
  }

  /** A string that holds the separator once can be cut at it in one way. */
  lemma SplitAtOnly(l: str, w: str, k: str, v: str, sep: byte)
    requires sep !in k && sep !in v
    requires l + [sep] + w == k + [sep] + v
    ensures l == k && w == v
  {
    var s := k + [sep] + v;
    assert s[|l|] == sep;
    assert forall i :: 0 <= i < |k| ==> s[i] == k[i];
    assert forall i :: |k| < i < |s| ==> s[i] == v[i - |k| - 1];
    assert l == s[..|l|] && k == s[..|k|];
    assert w == s[|l| + 1..] && v == s[|k| + 1..];
  }

  /** No string of `K` goes on, after another one, with the separator. */
  ghost predicate PrefixFree(K: iset<str>, sep: byte) {
    forall k, r :: k in K ==> k + [sep] + r !in K
  }

  ghost function FreeOf(sep: byte): iset<str> {
    iset k: str | sep !in k
  }

  lemma FreeOfIsPrefixFree(sep: byte)
    ensures PrefixFree(FreeOf(sep), sep)
  {
    forall k, r | k in FreeOf(sep)
      ensures k + [sep] + r !in FreeOf(sep)
    {
      assert (k + [sep] + r)[|k|] == sep;
    }
  }

  /** Then a separator ends one string of `K` only. */
  lemma SplitInSet(K: iset<str>, k: str, v: str, l: str, w: str, sep: byte)
    requires PrefixFree(K, sep) && k in K && l in K
    requires k + [sep] + v == l + [sep] + w
    ensures k == l && v == w
  {
    if |k| < |l| {
      LongerIsCut(k, v, l, w, sep);
    } else if |l| < |k| {
      LongerIsCut(l, w, k, v, sep);
    } else {
      Regroup(k, [sep], v);
      Regroup(l, [sep], w);
      SplitAtLength(k, [sep] + v, l, [sep] + w);
      SplitAtLength([sep], v, [sep], w);
    }
  }

  lemma LongerIsCut(k: str, v: str, l: str, w: str, sep: byte)
    requires k + [sep] + v == l + [sep] + w && |k| < |l|
    ensures l == k + [sep] + l[|k| + 1..]
  {
    var s := k + [sep] + v;
    assert l == s[..|l|] && k + [sep] == s[..|k| + 1];
    assert l == s[..|k| + 1] + l[|k| + 1..];
  }

  /** Cuts a string at the first separator. */
  lemma CutAtFirst(s: str, sep: byte) returns (x: str, y: str)
    requires sep in s
    ensures s == x + [sep] + y && sep !in x
  {
    var i := 0;
    while s[i] != sep
      invariant i < |s| && sep !in s[..i] && sep in s[i..]
      decreases |s| - i
    {
      i := i + 1;
    }
    x, y := s[..i], s[i + 1..];
  }

  lemma Regroup<T>(a: seq<T>, b: seq<T>, c: seq<T>)
    ensures a + b + c == a + (b + c)
  {
  }

  /** Prefixes of equal length can be cut off. */
  lemma SplitAtLength<T>(a: seq<T>, x: seq<T>, b: seq<T>, y: seq<T>)
    requires |a| == |b|
    requires a + x == b + y
    ensures a == b && x == y
  {
    assert a == (a + x)[..|a|] && b == (b + y)[..|b|];
    assert x == (a + x)[|a|..] && y == (b + y)[|b|..];
  }
}
