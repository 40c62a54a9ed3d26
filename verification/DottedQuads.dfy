/** IPv4 addresses as text. */
module DottedQuads {
  import opened Bytes

  function Digit(d: nat): char
    requires d < 10
  {
    '0' + d as char
  }

  /** A byte in decimal, without leading zeros. */
  function Decimal(b: byte): string {
    if b < 10 then [Digit(b)]
    else if b < 100 then [Digit(b / 10), Digit(b % 10)]
    else [Digit(b / 100), Digit(b / 10 % 10), Digit(b % 10)]
  }

  /** The four bytes of an address in network order, separated by dots. */
  function DottedQuad(bs: seq<byte>): string
    requires |bs| == 4
  {
    Decimal(bs[0]) + "." + (Decimal(bs[1]) + "." + (Decimal(bs[2]) + "." + Decimal(bs[3])))
  }

  /** The same text from the address word as a little-endian host holds it. */
  function IpToString(ip: u32): string {
    Decimal(ip % 256) + "." + (Decimal(ip / 256 % 256) + "." +
      (Decimal(ip / 256 / 256 % 256) + "." + Decimal(ip / 256 / 256 / 256)))
  }

  lemma IpToStringOfLoad(bs: seq<byte>)
    requires |bs| == 4
    ensures LittleEndian(bs) < TWO_32 && IpToString(LittleEndian(bs)) == DottedQuad(bs)
  {
    PowValues();
    LittleEndian4(bs);
    QuadBytes(bs[0], bs[1], bs[2], bs[3]);
  }

  lemma QuadBytes(a: int, b: int, c: int, d: int)
    requires 0 <= a < 256 && 0 <= b < 256 && 0 <= c < 256 && 0 <= d < 256
    ensures var x := a + 0x100 * b + 0x1_0000 * c + 0x100_0000 * d;
            x % 256 == a && x / 256 % 256 == b && x / 256 / 256 % 256 == c && x / 256 / 256 / 256 == d
  {
    var x := a + 0x100 * b + 0x1_0000 * c + 0x100_0000 * d;
    assert x / 256 == b + 256 * c + 0x1_0000 * d;
    assert x / 256 / 256 == c + 256 * d;
  }

  lemma DecimalInjective(a: byte, b: byte)
    requires Decimal(a) == Decimal(b)
    ensures a == b
  {
    var s := Decimal(a);
    assert a == ValueOf(s) && b == ValueOf(s) by {
      DecimalValue(a);
      DecimalValue(b);
    }
  }

  function ValueOf(s: string): int {
    if s == [] then 0 else 10 * ValueOf(s[..|s| - 1]) + (s[|s| - 1] as int - '0' as int)
  }

  lemma ValueAppend(s: string, d: nat)
    requires d < 10
    ensures ValueOf(s + [Digit(d)]) == 10 * ValueOf(s) + d
  {
    assert (s + [Digit(d)])[..|s|] == s;
  }

  lemma ValueOne(d: nat)
    requires d < 10
    ensures ValueOf([Digit(d)]) == d
  {
    assert [Digit(d)][..0] == [];
  }

  lemma DecimalValue(b: byte)
    ensures ValueOf(Decimal(b)) == b
  {
    var hundreds, tens, units := b / 100, b / 10 % 10, b % 10;
    if b < 10 {
      ValueOne(b);
    } else if b < 100 {
      ValueOne(b / 10);
      ValueAppend([Digit(b / 10)], units);
      assert Decimal(b) == [Digit(b / 10)] + [Digit(units)];
    } else {
      ValueOne(hundreds);
      ValueAppend([Digit(hundreds)], tens);
      ValueAppend([Digit(hundreds)] + [Digit(tens)], units);
      assert Decimal(b) == [Digit(hundreds)] + [Digit(tens)] + [Digit(units)];
    }
  }

  /** Only digits, and no leading zero but in "0" itself: with its value this makes the text the usual one. */
  lemma DecimalIsCanonical(b: byte)
    ensures Decimal(b) != [] && forall c :: c in Decimal(b) ==> '0' <= c <= '9'
    ensures Decimal(b)[0] == '0' ==> b == 0 && |Decimal(b)| == 1
    ensures ValueOf(Decimal(b)) == b
  {
    DecimalValue(b);
  }

  /** An address is its four bytes' texts in network order. */
  lemma AddressText(bs: seq<byte>)
    requires |bs| == 4
    ensures LittleEndian(bs) < TWO_32
    ensures IpToString(LittleEndian(bs))
         == Decimal(bs[0]) + "." + Decimal(bs[1]) + "." + Decimal(bs[2]) + "." + Decimal(bs[3])
  {
    IpToStringOfLoad(bs);
    FourParts(Decimal(bs[0]), Decimal(bs[1]), Decimal(bs[2]), Decimal(bs[3]));
  }

  lemma FourParts(a: string, b: string, c: string, d: string)
    ensures a + "." + (b + "." + (c + "." + d)) == a + "." + b + "." + c + "." + d
  {}

  lemma SampleAddress()
    ensures DottedQuad([10, 0, 200, 1]) == "10.0.200.1"
  {}

  lemma NoDot(b: byte)
    ensures '.' !in Decimal(b)
  {}

  /** Text up to the first dot is determined. */
  lemma SplitAtDot(a: string, x: string, b: string, y: string)
    requires '.' !in a && '.' !in b && a + "." + x == b + "." + y
    ensures a == b && x == y
  {
    var s, t := a + "." + x, b + "." + y;
    assert s[|a|] == '.' && t[|b|] == '.';
    assert s[..|a|] == a && t[..|b|] == b && s[|a| + 1..] == x && t[|b| + 1..] == y;
  }

  /** Different addresses have different texts. */
  lemma DottedQuadInjective(a: seq<byte>, b: seq<byte>)
    requires |a| == 4 && |b| == 4
    ensures DottedQuad(a) == DottedQuad(b) <==> a == b
  {
    if DottedQuad(a) == DottedQuad(b) {
      NoDot(a[0]); NoDot(a[1]); NoDot(a[2]);
      NoDot(b[0]); NoDot(b[1]); NoDot(b[2]);
      SplitAtDot(Decimal(a[0]), Tail3(a), Decimal(b[0]), Tail3(b));
      SplitAtDot(Decimal(a[1]), Tail2(a), Decimal(b[1]), Tail2(b));
      SplitAtDot(Decimal(a[2]), Decimal(a[3]), Decimal(b[2]), Decimal(b[3]));
      DecimalInjective(a[0], b[0]);
      DecimalInjective(a[1], b[1]);
      DecimalInjective(a[2], b[2]);
      DecimalInjective(a[3], b[3]);
    }
  }

  function Tail3(bs: seq<byte>): string
    requires |bs| == 4
  {
    Decimal(bs[1]) + "." + Tail2(bs)
  }

  function Tail2(bs: seq<byte>): string
    requires |bs| == 4
  {
    Decimal(bs[2]) + "." + Decimal(bs[3])
  }
}
