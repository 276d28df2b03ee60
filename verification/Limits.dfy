/** Checksums and length-prefixed frames: internal/codec/limits.go. */
module Limits {
  import opened Bytes
  import opened Options
  import opened Powers
  import BigEndian

  // ----- FNV-1a

  const OFFSET_BASIS: u32 := 2166136261
  const PRIME := 16777619

  /** Bitwise exclusive or of natural numbers. */
  function Xor(a: nat, b: nat): nat {
    if a == 0 && b == 0 then 0 else 2 * Xor(a / 2, b / 2) + (a + b) % 2
  }

  lemma XorLowBit(x: nat, bit: nat, b: nat)
    requires bit < 2
    ensures Xor(2 * x + bit, b) == 2 * Xor(x, b / 2) + (bit + b) % 2
  {
    assert (2 * x + bit) / 2 == x && (2 * x + bit + b) % 2 == (bit + b) % 2;
  }

  lemma ParityCancels(a: nat, b: nat)
    ensures ((a + b) % 2 + b) % 2 == a % 2
  {
  }

  lemma {:induction false} XorTwice(a: nat, b: nat)
    ensures Xor(Xor(a, b), b) == a
    decreases a + b
  {
    if a > 0 || b > 0 {
      XorTwice(a / 2, b / 2);
      XorLowBit(Xor(a / 2, b / 2), (a + b) % 2, b);
      ParityCancels(a, b);
    }
  }

  lemma {:induction false} XorCommutes(a: nat, b: nat)
    ensures Xor(a, b) == Xor(b, a)
    decreases a + b
  {
    if a > 0 || b > 0 {
      XorCommutes(a / 2, b / 2);
    }
  }

  lemma XorHalf(a: nat, b: nat)
    ensures Xor(a, b) / 2 == Xor(a / 2, b / 2) && Xor(a, b) % 2 == (a + b) % 2
  {
  }

  lemma BitOfHalves(x: nat, a: nat, b: nat, i: nat)
    requires x % 2 == (a + b) % 2
    requires i > 0 ==> Bit(x / 2, i - 1) == if Bit(a / 2, i - 1) == Bit(b / 2, i - 1) then 0 else 1
    ensures Bit(x, i) == if Bit(a, i) == Bit(b, i) then 0 else 1
  {
  }

  /** Bit by bit: set where exactly one of the two is. */
  lemma {:induction false} XorBits(a: nat, b: nat, i: nat)
    ensures Bit(Xor(a, b), i) == if Bit(a, i) == Bit(b, i) then 0 else 1
    decreases i
  {
    XorHalf(a, b);
    if i > 0 {
      XorBits(a / 2, b / 2, i - 1);
    }
    BitOfHalves(Xor(a, b), a, b, i);
  }

  lemma {:induction false} XorBound(a: nat, b: nat, bits: nat)
    requires a < Pow2(bits) && b < Pow2(bits)
    ensures Xor(a, b) < Pow2(bits)
  {
    if bits > 0 {
      XorBound(a / 2, b / 2, bits - 1);
    }
  }

  lemma Pow2Values()
    ensures Pow2(8) == 256 && Pow2(32) == TWO_TO_32
  {
    assert Pow2(4) == 16 && Pow2(12) == 4096 && Pow2(16) == 65536;
    assert Pow2(20) == 0x10_0000 && Pow2(24) == 0x100_0000 && Pow2(28) == 0x1000_0000;
  }

  /** One round of the hash, with Go's 32-bit wrap-around. */
  function Round(h: u32, b: byte): u32 {
    Xor(h, b) * PRIME % TWO_TO_32
  }

  function Checksum(h: u32, data: str): u32 {
    if data == [] then h else Round(Checksum(h, data[..|data| - 1]), data[|data| - 1])
  }

  /** `checksum`, whose loop runs over the bytes in order. */
  method ComputeChecksum(data: str) returns (h: u32)
    ensures h == Checksum(OFFSET_BASIS, data)
  {
    h := OFFSET_BASIS;
    for i := 0 to |data|
      invariant h == Checksum(OFFSET_BASIS, data[..i])
    {
      assert data[..i + 1][..i] == data[..i];
      h := Round(h, data[i]);
    }
    assert data[..|data|] == data;
  }

  /** The checksum in terms of the 32-bit state: the published basis, and for each byte exclusive or, then the prime. */
  lemma {:induction false} ChecksumMeans(data: str, b: byte)
    ensures Checksum(OFFSET_BASIS, []) == 0x811C_9DC5
    ensures Checksum(OFFSET_BASIS, data + [b]) ==
            Xor(Checksum(OFFSET_BASIS, data), b) * 16777619 % 0x1_0000_0000
  {
    assert (data + [b])[..|data|] == data;
  }

  lemma {:induction false} TimesPrimeInjective(x: u32, y: u32)
    requires x * PRIME % TWO_TO_32 == y * PRIME % TWO_TO_32
    ensures x == y
  {
    var q, r := x * 16777619 / 0x1_0000_0000, y * 16777619 / 0x1_0000_0000;
    MultipleOfPower(x - y, q - r);
  }

  /** The prime is invertible modulo 2^32: 16777619 * 899433627 is 3513497 * 2^32 + 1. */
  lemma {:induction false} MultipleOfPower(d: int, k: int)
    requires d * 16777619 == k * 0x1_0000_0000 && -0x1_0000_0000 < d < 0x1_0000_0000
    ensures d == 0
  {
    var e := k * 899433627 - 3513497 * d;
    assert d == e * 0x1_0000_0000;
  }

  lemma XorInRange(h: u32, b: byte)
    ensures Xor(h, b) < TWO_TO_32
  {
    Pow2Values();
    Pow2Grows(8, 32);
    XorBound(h, b, 32);
  }

  /** A round loses nothing: neither the state before it nor the byte it absorbs. */
  lemma RoundInjective(g: u32, h: u32, b: byte, c: byte)
    requires Round(g, b) == Round(h, c)
    ensures b == c ==> g == h
    ensures g == h ==> b == c
  {
    XorInRange(g, b);
    XorInRange(h, c);
    TimesPrimeInjective(Xor(g, b), Xor(h, c));
    XorTwice(g, b);
    XorTwice(h, c);
    XorCommutes(g, b);
    XorCommutes(h, c);
    XorTwice(b, g);
    XorTwice(c, h);
  }

  lemma {:induction false} SuffixKeepsDifference(g: u32, h: u32, data: str)
    requires g != h
    ensures Checksum(g, data) != Checksum(h, data)
  {
    if data != [] {
      var init, b := data[..|data| - 1], data[|data| - 1];
      SuffixKeepsDifference(g, h, init);
      if Checksum(g, data) == Checksum(h, data) {
        RoundInjective(Checksum(g, init), Checksum(h, init), b, b);
      }
    }
  }

  lemma {:induction false} ChecksumAppend(h: u32, a: str, b: str)
    ensures Checksum(h, a + b) == Checksum(Checksum(h, a), b)
  {
    if b == [] {
      assert a + b == a;
    } else {
      ChecksumAppend(h, a, b[..|b| - 1]);
      assert (a + b)[..|a + b| - 1] == a + b[..|b| - 1];
    }
  }

  /** Changing a single byte, anywhere in an input of any length, changes the checksum. */
  lemma {:induction false} OneByteChangeDetected(data: str, i: nat, c: byte)
    requires i < |data| && c != data[i]
    ensures Checksum(OFFSET_BASIS, data[i := c]) != Checksum(OFFSET_BASIS, data)
  {
    var prefix, suffix := data[..i], data[i + 1..];
    assert data == prefix + [data[i]] + suffix && data[i := c] == prefix + [c] + suffix;
    ChecksumAppend(OFFSET_BASIS, prefix + [data[i]], suffix);
    ChecksumAppend(OFFSET_BASIS, prefix + [c], suffix);
    var h := Checksum(OFFSET_BASIS, prefix);
    assert (prefix + [data[i]])[..i] == prefix && (prefix + [c])[..i] == prefix;
    if Round(h, data[i]) == Round(h, c) {
      RoundInjective(h, h, data[i], c);
    }
    SuffixKeepsDifference(Round(h, c), Round(h, data[i]), suffix);
  }

  // ----- Frames

  /** A frame; lengths of 2^32 and above lose their upper bits. */
  function FrameOf(payload: str): str {
    BigEndian.Encode(|payload|, 4) + payload
  }

  method Frame(payload: str, maxBytes: int) returns (r: Option<str>)
    ensures r == if |payload| > maxBytes then None else Some(FrameOf(payload))
  {
    if |payload| > maxBytes {
      return None;
    }
    var n := |payload|;
    var out := new byte[4 + n](_ => 0);
    out[0] := n / 0x100_0000 % 256;
    out[1] := n / 0x1_0000 % 256;
    out[2] := n / 0x100 % 256;
    out[3] := n % 256;
    ghost var header := out[..4];
    for i := 0 to n
      invariant out[..4] == header
      invariant out[4..4 + i] == payload[..i]
    {
      out[4 + i] := payload[i];
    }
    BigEndian.FourBytes(n);
    assert out[..] == header + out[4..];
    assert out[4..] == payload;
    assert out[..] == FrameOf(payload);
    return Some(out[..]);
  }

  function Unframe(data: str, maxBytes: int): Option<str> {
    if |data| < 4 then None
    else if BigEndian.Decode(data[..4]) != |data| - 4 then None
    else if |data[4..]| > maxBytes then None
    else Some(data[4..])
  }

  /** Framing is undone exactly for payloads whose length fits in the four length bytes. */
  lemma FrameRoundTrip(payload: str, maxBytes: int)
    requires |payload| <= maxBytes
    ensures Unframe(FrameOf(payload), maxBytes) == Some(payload) <==> |payload| < TWO_TO_32
  {
    BigEndian.Widths();
    var d := FrameOf(payload);
    assert d[..4] == BigEndian.Encode(|payload|, 4) && d[4..] == payload;
    BigEndian.DecodeBound(d[..4]);
    if |payload| < TWO_TO_32 {
      BigEndian.DecodeEncode(|payload|, 4);
    }
  }

  /** Nothing else is accepted: what unframes is the frame of the result, which keeps to the limit. */
  lemma UnframedWasFramed(data: str, maxBytes: int)
    requires Unframe(data, maxBytes).Some?
    ensures data == FrameOf(Unframe(data, maxBytes).value) && |Unframe(data, maxBytes).value| <= maxBytes
  {
    BigEndian.EncodeDecode(data[..4]);
    assert data == data[..4] + data[4..];
  }

  /** What is accepted, byte by byte. */
  lemma {:induction false} UnframeExact(data: str, maxBytes: int, payload: str)
    ensures Unframe(data, maxBytes) == Some(payload) <==>
            && |payload| <= maxBytes && |payload| < TWO_TO_32
            && var n := |payload|;
               data == [n / 0x100_0000 % 256, n / 0x1_0000 % 256, n / 0x100 % 256, n % 256] + payload
  {
    BigEndian.FourBytes(|payload|);
    if Unframe(data, maxBytes) == Some(payload) {
      UnframedWasFramed(data, maxBytes);
      FrameRoundTrip(payload, maxBytes);
    } else if |payload| <= maxBytes && data == FrameOf(payload) {
      FrameRoundTrip(payload, maxBytes);
    }
  }
}
