/** Bytes, their bits, and 32-bit numbers stored in four bytes, lowest byte first. */
module FsBits {

  type byte = bv8

  /** 1 << k */
  function One(k: nat): byte
    requires k < 8
  {
    if k == 0 then 1 else if k == 1 then 2 else if k == 2 then 4 else if k == 3 then 8
    else if k == 4 then 16 else if k == 5 then 32 else if k == 6 then 64 else 128
  }

  /** 0xFF << n, cut to a byte */
  function HighBits(n: nat): byte
    requires n < 8
  {
    if n == 0 then 0xFF else if n == 1 then 0xFE else if n == 2 then 0xFC else if n == 3 then 0xF8
    else if n == 4 then 0xF0 else if n == 5 then 0xE0 else if n == 6 then 0xC0 else 0x80
  }

  /** Bit k of b: ((b >> k) & 1) != 0 */
  predicate Bit(b: byte, k: nat)
    requires k < 8
  {
    b & One(k) != 0
  }

  lemma SetBit(b: byte, k: nat, i: nat)
    requires k < 8 && i < 8
    ensures Bit(b | One(k), i) == (i == k || Bit(b, i))
  {}

  lemma ClearBit(b: byte, k: nat, i: nat)
    requires k < 8 && i < 8
    ensures Bit(b & !One(k), i) == (i != k && Bit(b, i))
  {}

  lemma KeepHighBits(b: byte, n: nat, i: nat)
    requires n < 8 && i < 8
    ensures Bit(b & HighBits(n), i) == (i >= n && Bit(b, i))
  {}

  lemma FullByte(b: byte)
    ensures b == 0xFF <==> forall i | 0 <= i < 8 :: Bit(b, i)
  {
    if forall i | 0 <= i < 8 :: Bit(b, i) {
      assert Bit(b, 0) && Bit(b, 1) && Bit(b, 2) && Bit(b, 3) && Bit(b, 4) && Bit(b, 5) && Bit(b, 6) && Bit(b, 7);
    }
  }

  // ---------------------------------------------------------------- numbers

  const LIMIT32: nat := 0x1_0000_0000

  function On(c: bool, m: byte): byte { if c then m else 0 }

  function Pack(c0: bool, c1: bool, c2: bool, c3: bool, c4: bool, c5: bool, c6: bool, c7: bool): byte {
    On(c0, 1) | On(c1, 2) | On(c2, 4) | On(c3, 8) | On(c4, 16) | On(c5, 32) | On(c6, 64) | On(c7, 128)
  }

  /** The byte with value x. */
  function ByteOf(x: nat): byte {
    var x1 := x / 2; var x2 := x1 / 2; var x3 := x2 / 2; var x4 := x3 / 2;
    var x5 := x4 / 2; var x6 := x5 / 2; var x7 := x6 / 2;
    Pack(x % 2 == 1, x1 % 2 == 1, x2 % 2 == 1, x3 % 2 == 1, x4 % 2 == 1, x5 % 2 == 1, x6 % 2 == 1, x7 % 2 == 1)
  }

  function Weight(c: bool, w: nat): nat { if c then w else 0 }

  function Value(b: byte): (x: nat)
    ensures x < 256
  {
    Weight(Bit(b, 0), 1) + Weight(Bit(b, 1), 2) + Weight(Bit(b, 2), 4) + Weight(Bit(b, 3), 8)
    + Weight(Bit(b, 4), 16) + Weight(Bit(b, 5), 32) + Weight(Bit(b, 6), 64) + Weight(Bit(b, 7), 128)
  }

  lemma PackedBits(c0: bool, c1: bool, c2: bool, c3: bool, c4: bool, c5: bool, c6: bool, c7: bool)
    ensures var b := Pack(c0, c1, c2, c3, c4, c5, c6, c7);
            && Bit(b, 0) == c0 && Bit(b, 1) == c1 && Bit(b, 2) == c2 && Bit(b, 3) == c3
            && Bit(b, 4) == c4 && Bit(b, 5) == c5 && Bit(b, 6) == c6 && Bit(b, 7) == c7
  {}

  lemma PackedValue(c0: bool, c1: bool, c2: bool, c3: bool, c4: bool, c5: bool, c6: bool, c7: bool)
    ensures Value(Pack(c0, c1, c2, c3, c4, c5, c6, c7))
            == Weight(c0, 1) + Weight(c1, 2) + Weight(c2, 4) + Weight(c3, 8)
               + Weight(c4, 16) + Weight(c5, 32) + Weight(c6, 64) + Weight(c7, 128)
  {
    PackedBits(c0, c1, c2, c3, c4, c5, c6, c7);
    hide Pack, Bit;
  }

  lemma ByteRoundTrip(x: nat)
    requires x < 256
    ensures Value(ByteOf(x)) == x
  {
    hide Pack, Bit, Value;
    var x1 := x / 2; var x2 := x1 / 2; var x3 := x2 / 2; var x4 := x3 / 2;
    var x5 := x4 / 2; var x6 := x5 / 2; var x7 := x6 / 2;
    PackedValue(x % 2 == 1, x1 % 2 == 1, x2 % 2 == 1, x3 % 2 == 1, x4 % 2 == 1, x5 % 2 == 1, x6 % 2 == 1, x7 % 2 == 1);
    BinaryDigits(x, x1, x2, x3, x4, x5, x6, x7);
  }

  lemma LowNibble(x: nat)
    ensures x == Weight(x % 2 == 1, 1) + Weight(x / 2 % 2 == 1, 2)
                 + Weight(x / 2 / 2 % 2 == 1, 4) + Weight(x / 2 / 2 / 2 % 2 == 1, 8) + 16 * (x / 2 / 2 / 2 / 2)
  {}

  lemma BinaryDigits(x: nat, x1: nat, x2: nat, x3: nat, x4: nat, x5: nat, x6: nat, x7: nat)
    requires x < 256 && x1 == x / 2 && x2 == x1 / 2 && x3 == x2 / 2 && x4 == x3 / 2
    requires x5 == x4 / 2 && x6 == x5 / 2 && x7 == x6 / 2
    ensures x == Weight(x % 2 == 1, 1) + Weight(x1 % 2 == 1, 2) + Weight(x2 % 2 == 1, 4) + Weight(x3 % 2 == 1, 8)
                 + Weight(x4 % 2 == 1, 16) + Weight(x5 % 2 == 1, 32) + Weight(x6 % 2 == 1, 64) + Weight(x7 % 2 == 1, 128)
  {
    LowNibble(x);
    LowNibble(x4);
    assert x7 / 2 == 0;
  }

  function Get32(s: seq<byte>, o: nat): (x: nat)
    requires o + 4 <= |s|
    ensures x < LIMIT32
  {
    Value(s[o]) + 0x100 * Value(s[o + 1]) + 0x1_0000 * Value(s[o + 2]) + 0x100_0000 * Value(s[o + 3])
  }

  function Bytes32(x: nat): (r: seq<byte>)
    ensures |r| == 4
  {
    [ByteOf(x % 0x100), ByteOf(x / 0x100 % 0x100), ByteOf(x / 0x1_0000 % 0x100), ByteOf(x / 0x100_0000 % 0x100)]
  }

  lemma Divided(x: nat)
    ensures x / 0x1_0000 == x / 0x100 / 0x100
  {}

  lemma Digits(x: nat)
    requires x < LIMIT32
    ensures x == x % 0x100 + 0x100 * (x / 0x100 % 0x100) + 0x1_0000 * (x / 0x1_0000 % 0x100) + 0x100_0000 * (x / 0x100_0000 % 0x100)
  {
    var a := x / 0x100;
    var b := a / 0x100;
    var c := b / 0x100;
    Divided(x);
    Divided(a);
    assert x / 0x100_0000 == c;
    assert x == x % 0x100 + 0x100 * a && a == a % 0x100 + 0x100 * b && b == b % 0x100 + 0x100 * c && c % 0x100 == c;
  }

  /** A stored number is read back. */
  lemma Number32RoundTrip(x: nat, s: seq<byte>, o: nat)
    requires x < LIMIT32 && o + 4 <= |s| && s[o..o + 4] == Bytes32(x)
    ensures Get32(s, o) == x
  {
    hide Value, ByteOf;
    var t := s[o..o + 4];
    assert s[o] == t[0] && s[o + 1] == t[1] && s[o + 2] == t[2] && s[o + 3] == t[3];
    ByteRoundTrip(x % 0x100);
    ByteRoundTrip(x / 0x100 % 0x100);
    ByteRoundTrip(x / 0x1_0000 % 0x100);
    ByteRoundTrip(x / 0x100_0000 % 0x100);
    Digits(x);
  }
}
