/** Bytes, machine integers and the byte orders the decoder and the packet parser rely on. */
module Bytes {

  type byte = b: int | 0 <= b < 0x100
  type u16 = n: int | 0 <= n < 0x1_0000
  type u32 = n: int | 0 <= n < 0x1_0000_0000
  type u64 = n: int | 0 <= n < 0x1_0000_0000_0000_0000
  type i8 = n: int | -0x80 <= n < 0x80
  type i16 = n: int | -0x8000 <= n < 0x8000
  type i32 = n: int | -0x8000_0000 <= n < 0x8000_0000
  type i64 = n: int | -0x8000_0000_0000_0000 <= n < 0x8000_0000_0000_0000

  const TWO_32: int := 0x1_0000_0000

  /** The number of values that fit in n bytes. */
  function Pow256(n: nat): (p: nat)
    ensures p >= 1
  {
    if n == 0 then 1 else 256 * Pow256(n - 1)
  }

  lemma PowValues()
    ensures Pow256(1) == 0x100
    ensures Pow256(2) == 0x1_0000
    ensures Pow256(4) == 0x1_0000_0000
    ensures Pow256(8) == 0x1_0000_0000_0000_0000
  {
    assert Pow256(3) == 256 * Pow256(2);
    assert Pow256(5) == 256 * Pow256(4);
    assert Pow256(7) == 256 * Pow256(6);
  }

  lemma SliceOfTail<T>(s: seq<T>, n: nat, a: nat, b: nat)
    requires a <= b && n + b <= |s|
    ensures s[n..][a..b] == s[n + a..n + b]
  {}

  // Reading and writing numbers

  /** The number a little-endian host holds after copying these bytes into an integer. */
  function LittleEndian(bs: seq<byte>): (v: nat)
    ensures v < Pow256(|bs|)
  {
    if bs == [] then 0 else bs[0] + 256 * LittleEndian(bs[1..])
  }

  /** The number these bytes denote in network order. */
  function BigEndian(bs: seq<byte>): (v: nat)
    ensures v < Pow256(|bs|)
  {
    if bs == [] then 0 else 256 * BigEndian(bs[..|bs| - 1]) + bs[|bs| - 1]
  }

  function ToLittleEndian(v: nat, n: nat): (bs: seq<byte>)
    ensures |bs| == n
  {
    if n == 0 then [] else [v % 256] + ToLittleEndian(v / 256, n - 1)
  }

  function ToBigEndian(v: nat, n: nat): (bs: seq<byte>)
    ensures |bs| == n
  {
    if n == 0 then [] else ToBigEndian(v / 256, n - 1) + [v % 256]
  }

  lemma {:induction false} LittleEndianRoundTrip(v: nat, n: nat)
    requires v < Pow256(n)
    ensures LittleEndian(ToLittleEndian(v, n)) == v
  {
    if n == 0 {
    } else {
      LittleEndianRoundTrip(v / 256, n - 1);
      assert ToLittleEndian(v, n)[1..] == ToLittleEndian(v / 256, n - 1);
    }
  }

  lemma {:induction false} BigEndianRoundTrip(v: nat, n: nat)
    requires v < Pow256(n)
    ensures BigEndian(ToBigEndian(v, n)) == v
  {
    if n == 0 {
    } else {
      BigEndianRoundTrip(v / 256, n - 1);
      assert ToBigEndian(v, n)[..n - 1] == ToBigEndian(v / 256, n - 1);
    }
  }

  lemma {:induction false} LittleEndianInverse(bs: seq<byte>)
    ensures ToLittleEndian(LittleEndian(bs), |bs|) == bs
  {
    if bs == [] {
    } else {
      LittleEndianInverse(bs[1..]);
      assert LittleEndian(bs) / 256 == LittleEndian(bs[1..]);
      assert bs == [bs[0]] + bs[1..];
    }
  }

  lemma {:induction false} BigEndianInverse(bs: seq<byte>)
    ensures ToBigEndian(BigEndian(bs), |bs|) == bs
  {
    if bs == [] {
    } else {
      var front := bs[..|bs| - 1];
      BigEndianInverse(front);
      assert BigEndian(bs) / 256 == BigEndian(front);
      assert bs == front + [bs[|bs| - 1]];
    }
  }

  function Reversed(bs: seq<byte>): (r: seq<byte>)
    ensures |r| == |bs|
    ensures forall i :: 0 <= i < |bs| ==> r[i] == bs[|bs| - 1 - i]
  {
    seq(|bs|, i requires 0 <= i < |bs| => bs[|bs| - 1 - i])
  }

  lemma {:induction false} BigEndianIsReversed(bs: seq<byte>)
    ensures BigEndian(bs) == LittleEndian(Reversed(bs))
  {
    if bs == [] {
    } else {
      BigEndianIsReversed(bs[..|bs| - 1]);
      assert Reversed(bs)[1..] == Reversed(bs[..|bs| - 1]);
    }
  }

  /** The two byte orders read the same number exactly from the palindromes. */
  lemma ByteOrdersAgree(bs: seq<byte>)
    ensures BigEndian(bs) == LittleEndian(bs) <==> bs == Reversed(bs)
  {
    BigEndianIsReversed(bs);
    LittleEndianInverse(bs);
    LittleEndianInverse(Reversed(bs));
  }

  // Byte swapping, as the host's network-order conversions do it

  function Ntohs(x: u16): u16 {
    x % 256 * 256 + x / 256
  }

  function Ntohl(x: u32): u32 {
    x % 256 * 0x100_0000 + x / 256 % 256 * 0x1_0000 + x / 256 / 256 % 256 * 0x100 + x / 256 / 256 / 256
  }

  lemma LittleEndian2(bs: seq<byte>)
    requires |bs| == 2
    ensures LittleEndian(bs) == bs[0] as int + 0x100 * bs[1] as int
  {
    assert LittleEndian(bs[1..]) == bs[1] + 256 * LittleEndian(bs[1..][1..]);
  }

  lemma LittleEndian4(bs: seq<byte>)
    requires |bs| == 4
    ensures LittleEndian(bs)
         == bs[0] as int + 0x100 * bs[1] as int + 0x1_0000 * bs[2] as int + 0x100_0000 * bs[3] as int
  {
    LittleEndian2(bs[2..]);
    assert bs[1..][1..] == bs[2..];
    assert LittleEndian(bs[1..]) == bs[1] + 256 * LittleEndian(bs[2..]);
  }

  lemma SwapTwo(a: int, b: int)
    requires 0 <= a < 256 && 0 <= b < 256
    ensures Ntohs(a + 0x100 * b) == b + 0x100 * a
  {}

  /** Swapping what a little-endian host loaded yields the network-order value. */
  lemma NtohsOfLoad(bs: seq<byte>)
    requires |bs| == 2
    ensures LittleEndian(bs) < 0x1_0000 && Ntohs(LittleEndian(bs)) == BigEndian(bs)
  {
    PowValues();
    LittleEndian2(bs);
    SwapTwo(bs[0], bs[1]);
    BigEndianIsReversed(bs);
    LittleEndian2(Reversed(bs));
  }

  lemma SwapFour(a: int, b: int, c: int, d: int)
    requires 0 <= a < 256 && 0 <= b < 256 && 0 <= c < 256 && 0 <= d < 256
    ensures Ntohl(a + 0x100 * b + 0x1_0000 * c + 0x100_0000 * d)
         == d + 0x100 * c + 0x1_0000 * b + 0x100_0000 * a
  {
    var x := a + 0x100 * b + 0x1_0000 * c + 0x100_0000 * d;
    assert x / 256 == b + 256 * c + 0x1_0000 * d;
    assert x / 256 / 256 == c + 256 * d;
  }

  lemma BigEndian2(bs: seq<byte>)
    requires |bs| == 2
    ensures BigEndian(bs) == bs[1] as int + 0x100 * bs[0] as int
  {
    BigEndianIsReversed(bs);
    LittleEndian2(Reversed(bs));
  }

  lemma BigEndian4(bs: seq<byte>)
    requires |bs| == 4
    ensures BigEndian(bs)
         == bs[3] as int + 0x100 * bs[2] as int + 0x1_0000 * bs[1] as int + 0x100_0000 * bs[0] as int
  {
    BigEndianIsReversed(bs);
    LittleEndian4(Reversed(bs));
  }

  lemma NtohlOfLoad(bs: seq<byte>)
    requires |bs| == 4
    ensures LittleEndian(bs) < TWO_32 && Ntohl(LittleEndian(bs)) == BigEndian(bs)
  {
    assert LittleEndian(bs) < TWO_32 by { PowValues(); }
    assert Ntohl(LittleEndian(bs)) == BigEndian(bs) by {
      LittleEndian4(bs);
      BigEndian4(bs);
      SwapFour(bs[0], bs[1], bs[2], bs[3]);
    }
  }

  // Two's complement

  /** Reinterprets an unsigned value below 2 * half as signed. */
  function AsSigned(v: nat, half: nat): (s: int)
    requires v < 2 * half
    ensures -(half as int) <= s < half
  {
    if v < half then v else v - 2 * half
  }

  function AsUnsigned(s: int, half: nat): (v: nat)
    requires -(half as int) <= s < half
    ensures v < 2 * half && AsSigned(v, half) == s
  {
    if s >= 0 then s else s + 2 * half
  }
}
