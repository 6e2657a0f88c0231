/** CRC-32 as littlefs uses it: the bit-by-bit reflected definition (section 8 of RFC 1952, without
    the final complement) and the nibble-table loop.
 */
module Crc {
  import opened Remainders

  /** Bring one byte into the remainder and divide by the polynomial eight times. */
  function ByteStep(c: bv32, b: bv8): bv32 {
    Steps8(X(c, b as bv32), POLY32)
  }

  function Update(c: bv32, data: seq<bv8>): bv32 {
    if data == [] then c else ByteStep(Update(c, data[..|data| - 1]), data[|data| - 1])
  }

  const RTABLE: seq<bv32> := [
    0x00000000, 0x1db71064, 0x3b6e20c8, 0x26d930ac,
    0x76dc4190, 0x6b6b51f4, 0x4db26158, 0x5005713c,
    0xedb88320, 0xf00f9344, 0xd6d6a3e8, 0xcb61b38c,
    0x9b64c2b0, 0x86d3d2d4, 0xa00ae278, 0xbdbdf21c
  ]

  /** The table-driven loop computes the bitwise definition. */
  method LfsCrc(crc: bv32, data: seq<bv8>) returns (r: bv32)
    ensures r == Update(crc, data)
  {
    hide TableStep, ByteStep;
    r := crc;
    for i := 0 to |data|
      invariant r == Update(crc, data[..i])
    {
      var b := data[i];
      assert data[..i + 1][..i] == data[..i];
      TableByte(r, b);
      r := TableStep(r, b as bv32);
      r := TableStep(r, (b >> 4) as bv32);
    }
    assert data[..|data|] == data;
  }

  /** A table step on the nibble that the remainder and the data make together. */
  function TableStep(c: bv32, d: bv32): bv32 {
    X(c >> 4, RTABLE[(X(c, d) & 0xf) as int])
  }

  lemma TableByte(c: bv32, b: bv8)
    ensures TableStep(TableStep(c, b as bv32), (b >> 4) as bv32) == ByteStep(c, b)
  {
    hide Steps4, TableStep, X;
    FirstNibble(c, b);
    SecondNibble(TableStep(c, b as bv32), b);
  }

  lemma TableEntry(i: bv32)
    requires i <= 0xf
    ensures RTABLE[i as int] == Steps4(i, POLY32)
  {
    if i == 0 {
    } else if i == 1 {
    } else if i == 2 {
    } else if i == 3 {
    } else if i == 4 {
    } else if i == 5 {
    } else if i == 6 {
    } else if i == 7 {
    } else if i == 8 {
    } else if i == 9 {
    } else if i == 10 {
    } else if i == 11 {
    } else if i == 12 {
    } else if i == 13 {
    } else if i == 14 {
    } else {
      assert i == 15;
    }
  }

  lemma ShiftX(c: bv32, d: bv32)
    ensures X(c, d) >> 4 == X(c >> 4, d >> 4)
  {
    hide X, Half;
    FourHalves(c);
    FourHalves(d);
    FourHalves(X(c, d));
    XHalf(c, d);
    XHalf(Half(c), Half(d));
    XHalf(Half(Half(c)), Half(Half(d)));
    XHalf(Half(Half(Half(c))), Half(Half(Half(d))));
  }

  lemma FourHalves(c: bv32)
    ensures c >> 4 == Half(Half(Half(Half(c))))
  {
  }

  lemma HighNibble(b: bv8)
    ensures (b as bv32) >> 4 == (b >> 4) as bv32 && ((b >> 4) as bv32) >> 4 == 0
  {
  }

  lemma LowNibble(x: bv32)
    ensures x & 0xf <= 0xf
  {
  }

  /** The low nibble of the byte first; the high one is still to come. */
  lemma FirstNibble(c: bv32, b: bv8)
    ensures Steps4(X(c, b as bv32), POLY32) == X(TableStep(c, b as bv32), (b >> 4) as bv32)
  {
    hide Steps4, X;
    var x := X(c, b as bv32);
    LowNibble(x);
    TableEntry(x & 0xf);
    NibbleSplit(x, POLY32);
    ShiftX(c, b as bv32);
    HighNibble(b);
    XSwap(c >> 4, (b >> 4) as bv32, RTABLE[(x & 0xf) as int]);
  }

  lemma SecondNibble(c: bv32, b: bv8)
    ensures Steps4(X(c, (b >> 4) as bv32), POLY32) == TableStep(c, (b >> 4) as bv32)
  {
    hide Steps4, X;
    var x := X(c, (b >> 4) as bv32);
    LowNibble(x);
    TableEntry(x & 0xf);
    NibbleSplit(x, POLY32);
    ShiftX(c, (b >> 4) as bv32);
    HighNibble(b);
    XZero(c >> 4);
  }

  lemma {:induction false} UpdateConcat(c: bv32, x: seq<bv8>, y: seq<bv8>)
    ensures Update(c, x + y) == Update(Update(c, x), y)
  {
    if y == [] {
      assert x + y == x;
    } else {
      assert (x + y)[..|x + y| - 1] == x + y[..|y| - 1];
      UpdateConcat(c, x, y[..|y| - 1]);
    }
  }

  lemma UpdateFour(c: bv32, b: seq<bv8>)
    requires |b| == 4
    ensures Update(c, b) == ByteStep(ByteStep(ByteStep(ByteStep(c, b[0]), b[1]), b[2]), b[3])
  {
    hide ByteStep;
    assert b[..3][..2] == b[..2] && b[..2][..1] == b[..1] && b[..1][..0] == [];
    assert Update(c, b[..1]) == ByteStep(c, b[0]);
    assert Update(c, b[..2]) == ByteStep(Update(c, b[..1]), b[1]);
    assert Update(c, b[..3]) == ByteStep(Update(c, b[..2]), b[2]);
  }

  lemma OwnByte(c: bv32, b: bv8, d: bv32)
    requires b as bv32 == c & 0xff && d == c >> 8
    ensures ByteStep(c, b) == d
  {
    assert X(c, b as bv32) == c & 0xffffff00;
    ShiftOut(c, POLY32);
  }

  predicate IsLE(c: bv32, b: seq<bv8>) {
    && |b| == 4
    && b[0] as bv32 == c & 0xff && b[1] as bv32 == (c >> 8) & 0xff
    && b[2] as bv32 == ((c >> 8) >> 8) & 0xff && b[3] as bv32 == (((c >> 8) >> 8) >> 8) & 0xff
  }

  function FromLEBits(b: seq<bv8>): bv32
    requires |b| == 4
  {
    (b[0] as bv32) | ((b[1] as bv32) << 8) | ((b[2] as bv32) << 16) | ((b[3] as bv32) << 24)
  }

  lemma LEBytes(b: seq<bv8>)
    requires |b| == 4
    ensures IsLE(FromLEBits(b), b)
  {
  }

  lemma ShiftedAway(c: bv32)
    ensures (((c >> 8) >> 8) >> 8) >> 8 == 0
  {
  }

  /** A remainder run over its own little-endian bytes cancels. */
  lemma Residue(c: bv32, b: seq<bv8>)
    requires IsLE(c, b)
    ensures Update(c, b) == 0
  {
    var c1 := c >> 8;
    var c2 := c1 >> 8;
    var c3 := c2 >> 8;
    ShiftedAway(c);
    UpdateFour(c, b);
    OwnByte(c, b[0], c1);
    OwnByte(c1, b[1], c2);
    OwnByte(c2, b[2], c3);
    OwnByte(c3, b[3], 0);
  }

  /** Appending the remainder of any data makes the whole run to zero. */
  lemma SealedIsZero(c: bv32, data: seq<bv8>, seal: seq<bv8>)
    requires |seal| == 4 && FromLEBits(seal) == Update(c, data)
    ensures Update(c, data + seal) == 0
  {
    UpdateConcat(c, data, seal);
    LEBytes(seal);
    Residue(Update(c, data), seal);
  }
}

/** The same checksum over numbers, as the metadata log sees it. */
module CrcLaws {
  import opened Basics
  import opened Words
  import opened Crc
  import opened Commits

  /** A number below 0x100 as a byte, bit by bit. */
  function ToByte(b: nat): bv8 {
    if b == 0 then 0 else 2 * ToByte(b / 2) + (if b % 2 == 1 then 1 else 0)
  }

  function Bits(data: seq<Byte>): (r: seq<bv8>)
    ensures |r| == |data|
  {
    seq(|data|, i requires 0 <= i < |data| => ToByte(data[i]))
  }

  lemma Doubled(x: bv8, y: bv8)
    requires x <= 0x7f && y <= 1
    ensures (2 * x + y) as int == 2 * (x as int) + (y as int)
  {
  }

  lemma AtMost(x: bv8)
    ensures x <= 0x7f <==> (x as int) <= 0x7f
  {
  }

  lemma {:induction false} ByteValue(b: nat)
    requires b < 0x100
    ensures ToByte(b) as int == b
  {
    if b != 0 {
      ByteValue(b / 2);
      AtMost(ToByte(b / 2));
      Doubled(ToByte(b / 2), if b % 2 == 1 then 1 else 0);
    }
  }

  function Push(hi: bv32, lo: bv8): bv32 {
    (hi << 8) | (lo as bv32)
  }

  lemma PushValue(hi: bv32, lo: bv8)
    requires hi <= 0xff_ffff
    ensures Push(hi, lo) as nat == 0x100 * (hi as nat) + (lo as nat)
    ensures hi <= 0xff ==> Push(hi, lo) <= 0xffff
    ensures hi <= 0xffff ==> Push(hi, lo) <= 0xff_ffff
  {
  }

  lemma Horner(b: seq<bv8>)
    requires |b| == 4
    ensures FromLEBits(b) == Push(Push(Push(b[3] as bv32, b[2]), b[1]), b[0])
  {
  }

  lemma WordValue(b: seq<bv8>)
    requires |b| == 4
    ensures FromLEBits(b) as nat ==
            0x1_0000 * (0x100 * (b[3] as nat) + (b[2] as nat)) + (0x100 * (b[1] as nat) + (b[0] as nat))
  {
    hide Push;
    Horner(b);
    PushValue(b[3] as bv32, b[2]);
    PushValue(Push(b[3] as bv32, b[2]), b[1]);
    PushValue(Push(Push(b[3] as bv32, b[2]), b[1]), b[0]);
  }

  lemma BitsValue(s: seq<Byte>)
    requires |s| == 4
    ensures FromLEBits(Bits(s)) as nat == FromLE(s)
  {
    WordValue(Bits(s));
    ByteValue(s[0]);
    ByteValue(s[1]);
    ByteValue(s[2]);
    ByteValue(s[3]);
  }

  function ToBits(c: U32): (w: bv32)
    ensures w as nat == c
  {
    BitsValue(LE(c));
    LERoundTrip(c);
    FromLEBits(Bits(LE(c)))
  }

  lemma SameBits(v: bv32, w: bv32)
    requires v as nat == w as nat
    ensures v == w
  {
    assert (v as nat) as bv32 == v;
    assert (w as nat) as bv32 == w;
  }

  function Crc32(c: U32, data: seq<Byte>): U32 {
    Update(ToBits(c), Bits(data)) as int
  }

  lemma Resume(c: U32, x: seq<Byte>, y: seq<Byte>)
    ensures Crc32(Crc32(c, x), y) == Crc32(c, x + y)
  {
    hide Update, ToBits;
    var u := Update(ToBits(c), Bits(x));
    SameBits(ToBits(u as int), u);
    assert Bits(x + y) == Bits(x) + Bits(y);
    UpdateConcat(ToBits(c), Bits(x), Bits(y));
  }

  lemma Cancels(c: U32, x: seq<Byte>, s: seq<Byte>)
    requires |s| == 4 && FromLE(s) == Crc32(c, x)
    ensures Crc32(c, x + s) == 0
  {
    hide Update, ToBits, FromLEBits, FromLE;
    var u := Update(ToBits(c), Bits(x));
    BitsValue(s);
    SameBits(FromLEBits(Bits(s)), u);
    assert Bits(x + s) == Bits(x) + Bits(s);
    SealedIsZero(ToBits(c), Bits(x), Bits(s));
  }

  lemma Empty(c: U32)
    ensures Crc32(c, []) == c
  {
    hide ToBits;
    assert Bits([]) == [];
  }

  /** CRC-32 is a checksum as the commit code needs it. */
  lemma Crc32Lawful()
    ensures Lawful(Crc32)
  {
    hide Crc32, FromLE;
    forall c: U32 ensures Crc32(c, []) == c {
      Empty(c);
    }
    forall c: U32, x: seq<Byte>, y: seq<Byte> ensures Crc32(Crc32(c, x), y) == Crc32(c, x + y) {
      Resume(c, x, y);
    }
    forall c: U32, x: seq<Byte>, s: seq<Byte> | |s| == 4 && FromLE(s) == Crc32(c, x) ensures Crc32(c, x + s) == 0 {
      Cancels(c, x, s);
    }
  }
}
