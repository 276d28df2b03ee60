/** Fixed-width big-endian integers. */
module BigEndian {
  import opened Bytes

  /** The low `width` bytes of `n`, most significant first. */
  function Encode(n: nat, width: nat): (s: str)
    ensures |s| == width
  {
    if width == 0 then [] else Encode(n / 256, width - 1) + [n % 256]
  }

  function Decode(s: str): nat {
    if s == [] then 0 else 256 * Decode(s[..|s| - 1]) + s[|s| - 1]
  }

  function Pow256(width: nat): (p: nat)
    ensures p > 0
  {
    if width == 0 then 1 else 256 * Pow256(width - 1)
  }

  lemma {:induction false} DecodeBound(s: str)
    ensures Decode(s) < Pow256(|s|)
  {
    if s != [] {
      DecodeBound(s[..|s| - 1]);
    }
  }

  lemma {:induction false} DecodeEncode(n: nat, width: nat)
    requires n < Pow256(width)
    ensures Decode(Encode(n, width)) == n
  {
    if width > 0 {
      DecodeEncode(n / 256, width - 1);
      var s := Encode(n / 256, width - 1);
      assert (s + [n % 256])[..|s|] == s;
    }
  }

  lemma {:induction false} EncodeDecode(s: str)
    ensures Encode(Decode(s), |s|) == s
  {
    if s != [] {
      EncodeDecode(s[..|s| - 1]);
      assert s == s[..|s| - 1] + [s[|s| - 1]];
    }
  }

  lemma TwoBytes(n: nat)
    ensures Encode(n, 2) == [n / 0x100 % 256, n % 256]
  {
    assert Encode(n / 256, 1) == Encode(n / 256 / 256, 0) + [n / 256 % 256];
  }

  lemma FourBytes(n: nat)
    ensures Encode(n, 4) == [n / 0x100_0000 % 256, n / 0x1_0000 % 256, n / 0x100 % 256, n % 256]
  {
    TwoBytes(n / 0x1_0000);
    assert n / 0x1_0000 / 256 == n / 0x100_0000 && n / 0x100 / 256 == n / 0x1_0000 && n / 256 == n / 0x100;
    assert Encode(n / 0x100, 3) == Encode(n / 0x1_0000, 2) + [n / 0x100 % 256];
  }

  lemma NextByte(n: nat, width: nat)
    ensures Encode(n, width + 1) == Encode(n / 0x100, width) + [n % 256]
  {
  }

  lemma NextFourBytes(n: nat, width: nat)
    ensures Encode(n, width + 4) ==
            Encode(n / 0x1_0000_0000, width) + [n / 0x100_0000 % 256, n / 0x1_0000 % 256, n / 0x100 % 256, n % 256]
  {
    NextByte(n, width + 3);
    NextByte(n / 0x100, width + 2);
    NextByte(n / 0x1_0000, width + 1);
    NextByte(n / 0x100_0000, width);
    assert n / 0x100 / 0x100 == n / 0x1_0000 && n / 0x1_0000 / 0x100 == n / 0x100_0000;
    assert n / 0x100_0000 / 0x100 == n / 0x1_0000_0000;
  }

  lemma HighBytes(n: nat)
    ensures n / 0x1_0000_0000 / 0x100_0000 == n / 0x100_0000_0000_0000
    ensures n / 0x1_0000_0000 / 0x1_0000 == n / 0x1_0000_0000_0000
    ensures n / 0x1_0000_0000 / 0x100 == n / 0x100_0000_0000
  {
  }

  lemma EightBytes(n: nat)
    ensures Encode(n, 8) ==
            [n / 0x100_0000_0000_0000 % 256, n / 0x1_0000_0000_0000 % 256, n / 0x100_0000_0000 % 256,
             n / 0x1_0000_0000 % 256, n / 0x100_0000 % 256, n / 0x1_0000 % 256, n / 0x100 % 256, n % 256]
  {
    NextFourBytes(n, 4);
    FourBytes(n / 0x1_0000_0000);
    HighBytes(n);
  }

  lemma Widths()
    ensures Pow256(2) == 65536 && Pow256(4) == TWO_TO_32 && Pow256(8) == TWO_TO_64
  {
    assert Pow256(1) == 256 && Pow256(3) == 0x100_0000;
    assert Pow256(5) == 0x100_0000_0000 && Pow256(6) == 0x1_0000_0000_0000 && Pow256(7) == 0x100_0000_0000_0000;
  }
}
