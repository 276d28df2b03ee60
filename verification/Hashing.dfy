/**
  SHA-256 followed by hex encoding, kept abstract: `Sha256Hex` stands for any function from byte strings to
  64 hex characters, so every theorem holds whatever the digest function is.  A function with a fixed-length
  output cannot be injective, so results that need hash strength assume it only on a finite set: the strings the
  code actually hashed, those of one side against those of the other.  Where such a result fails to hold, a string
  hashed on one side and a different string hashed on the other have the same digest.
 */
module Hashing {
  import opened Bytes

  predicate IsHex(c: byte) {
    48 <= c <= 57 || 97 <= c <= 102
  }

  /** Lower-case hex digits, as characters. */
  lemma {:induction false} HexDigits(c: byte)
    ensures IsHex(c) <==> exists i :: 0 <= i < 16 && c == "0123456789abcdef"[i] as int
  {
    var digits := "0123456789abcdef";
    if 48 <= c <= 57 {
      assert digits[c - 48] as int == c;
    } else if 97 <= c <= 102 {
      assert digits[c - 87] as int == c;
    }
  }

  predicate AllHex(s: str) {
    forall i :: 0 <= i < |s| ==> IsHex(s[i])
  }

  predicate IsDigest(s: str) {
    |s| == 64 && AllHex(s)
  }

  type digest = s: str | IsDigest(s) witness seq(64, (_: nat) => 48 as byte)

  const Sha256Hex: str -> digest

  function Hash(s: str): (d: str)
    ensures IsDigest(d)
  {
    Sha256Hex(s)
  }

  /** No string of `s` shares its digest with a different string of `t`. */
  ghost predicate CollisionFree(s: set<str>, t: set<str>) {
    forall a, b :: a in s && b in t && Hash(a) == Hash(b) ==> a == b
  }

  lemma CollisionFreeWithin(s: set<str>, t: set<str>, s': set<str>, t': set<str>)
    requires CollisionFree(s, t) && s' <= s && t' <= t
    ensures CollisionFree(s', t')
  {
  }
}
