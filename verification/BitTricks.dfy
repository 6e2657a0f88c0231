/** The bit counts in plain C, for compilers without the instructions: binary search for the highest
    one, the lowest one isolated, and ones added up in ever wider fields of the word.
 */
module BitTricks {
  import opened Basics
  import opened Align
  import opened CtzMath

  /** Bitwise and. */
  function And(a: nat, b: nat): nat {
    if a == 0 || b == 0 then 0 else 2 * And(a / 2, b / 2) + Both(a % 2, b % 2)
  }

  function Both(i: nat, j: nat): nat {
    if i == 1 && j == 1 then 1 else 0
  }

  // ----- the exponent of the next power of two

  lemma {:induction false} BitLenShift(a: nat, s: nat)
    requires a >= Pow2(s)
    ensures BitLen(a) == s + BitLen(a / Pow2(s))
  {
    if s > 0 {
      BitLenShift(a / 2, s - 1);
      assert a / 2 / Pow2(s - 1) == a / Pow2(s) by {
        DivTwice(a, Pow2(s - 1));
      }
    }
  }

  lemma DivTwice(a: nat, p: nat)
    requires p > 0
    ensures a / 2 / p == a / (2 * p)
  {
    var q, r := a / (2 * p), a % (2 * p);
    var pq := p * q;
    assert a == 2 * pq + r by {
      assert 2 * p * q == 2 * (p * q);
    }
    assert a / 2 == pq + r / 2;
    DivModUnique(a / 2, p, q, r / 2);
  }

  /** One step of the search: drop the low `s` bits if something is above them. */
  method Halve(a: nat, s: nat, r: nat) returns (a': nat, r': nat)
    requires s > 0
    ensures r' == r || r' == r + s
    ensures a > 0 ==> a' > 0
    ensures r' + BitLen(a') == r + BitLen(a)
    ensures a < Pow2(s) * Pow2(s) ==> a' < Pow2(s)
  {
    if a > Pow2(s) - 1 {
      BitLenShift(a, s);
      Quotient(a, Pow2(s));
      return a / Pow2(s), r + s;
    }
    return a, r;
  }

  lemma Quotient(a: nat, p: nat)
    requires 0 < p <= a
    ensures a / p > 0
    ensures a < p * p ==> a / p < p
  {
    var q := a / p;
    assert a == p * q + a % p;
    if q >= p {
      assert p * q >= p * p by {
        MulMono(p, q, p);
      }
    }
  }

  /** The result is one too much for the argument 1, and only then. */
  method NextPow2(a: U32) returns (r: nat)
    requires a > 0
    ensures r == Npw2(a) <==> a != 1
    ensures a == 1 ==> r == 1 && Npw2(a) == 0
  {
    hide Pow2, BitLen;
    Powers16();
    var x, s := a - 1, 0;
    x, s := Halve(x, 16, s);
    x, s := Halve(x, 8, s);
    x, s := Halve(x, 4, s);
    x, s := Halve(x, 2, s);
    // the bits joined are all different, so joining them is adding them
    r := s + x / 2 + 1;
    assert x < 4;
    LengthsTo3();
  }

  lemma LengthsTo3()
    ensures BitLen(0) == 0 && BitLen(1) == 1 && BitLen(2) == 2 && BitLen(3) == 2
  {
  }

  lemma Powers16()
    ensures Pow2(16) == 0x1_0000 && Pow2(8) == 0x100 && Pow2(4) == 0x10 && Pow2(2) == 4
  {
    assert Pow2(4) == 16;
    assert Pow2(8) == 256;
    assert Pow2(12) == 4096;
  }

  // ----- trailing zeros

  /** The lowest one of a number, isolated. */
  lemma {:induction false} LowestOne(a: nat, k: nat)
    requires 0 < a < Pow2(k)
    ensures And(a, Pow2(k) - a) == Pow2(Ctz(a))
  {
    if a % 2 == 1 {
      Opposite(a / 2, k - 1);
    } else {
      LowestOne(a / 2, k - 1);
    }
  }

  lemma {:induction false} Opposite(a: nat, k: nat)
    requires a < Pow2(k)
    ensures And(a, Pow2(k) - 1 - a) == 0
  {
    if k > 0 {
      Opposite(a / 2, k - 1);
    }
  }

  lemma {:induction false} BitLenPow(k: nat)
    ensures BitLen(Pow2(k)) == k + 1
  {
    if k > 0 {
      BitLenPow(k - 1);
      assert Pow2(k) / 2 == Pow2(k - 1);
    }
  }

  lemma {:induction false} CtzSmall(a: nat)
    requires a > 0
    ensures Pow2(Ctz(a)) <= a
  {
    if a % 2 == 0 {
      CtzSmall(a / 2);
    }
  }

  method TrailingZeros(a: U32) returns (r: nat)
    requires a > 0
    ensures r == Ctz(a)
  {
    hide And, Pow2, Ctz, BitLen;
    Negated(a);
    var low := And(a, (0 - a) % 0x1_0000_0000);
    BitLenPow(Ctz(a));
    r := NextPow2(low + 1);
    r := r - 1;
  }

  lemma Negated(a: U32)
    requires a > 0
    ensures And(a, (0 - a) % 0x1_0000_0000) == Pow2(Ctz(a)) < 0xffff_ffff
  {
    hide And;
    Pow32();
    LowestOne(a, 32);
    CtzSmall(a);
    NotPower(Ctz(a));
    assert (0 - a) % 0x1_0000_0000 == 0x1_0000_0000 - a;
  }

  lemma Pow32()
    ensures Pow2(32) == 0x1_0000_0000
  {
    assert Pow2(8) == 256;
    assert Pow2(16) == 65536;
    assert Pow2(24) == 16777216;
  }

  lemma NotPower(k: nat)
    ensures Pow2(k) != 0xffff_ffff
  {
  }

  // ----- ones

  lemma AndStep(a: nat, b: nat)
    ensures And(a, b) == 2 * And(a / 2, b / 2) + Both(a % 2, b % 2)
  {
  }

  lemma And2(x: nat, d: nat, y: nat, e: nat)
    requires d < 2 && e < 2
    ensures And(2 * x + d, 2 * y + e) == 2 * And(x, y) + And(d, e)
  {
    AndStep(2 * x + d, 2 * y + e);
    AndStep(d, e);
    AndNone();
    hide And;
    assert (2 * x + d) / 2 == x && (2 * y + e) / 2 == y && d / 2 == 0 && e / 2 == 0;
  }

  lemma AndNone()
    ensures And(0, 0) == 0
  {
  }

  lemma And4(x: nat, d: nat, y: nat, e: nat)
    requires d < 4 && e < 4
    ensures And(4 * x + d, 4 * y + e) == 4 * And(x, y) + And(d, e)
  {
    hide And;
    And2(2 * x + d / 2, d % 2, 2 * y + e / 2, e % 2);
    And2(x, d / 2, y, e / 2);
    And2(d / 2, d % 2, e / 2, e % 2);
    assert 4 * x + d == 2 * (2 * x + d / 2) + d % 2 && 4 * y + e == 2 * (2 * y + e / 2) + e % 2;
  }

  lemma And16(x: nat, d: nat, y: nat, e: nat)
    requires d < 16 && e < 16
    ensures And(16 * x + d, 16 * y + e) == 16 * And(x, y) + And(d, e)
  {
    hide And;
    And4(4 * x + d / 4, d % 4, 4 * y + e / 4, e % 4);
    And4(x, d / 4, y, e / 4);
    And4(d / 4, d % 4, e / 4, e % 4);
  }

  lemma And256(x: nat, d: nat, y: nat, e: nat)
    requires d < 256 && e < 256
    ensures And(256 * x + d, 256 * y + e) == 256 * And(x, y) + And(d, e)
  {
    hide And;
    And16(16 * x + d / 16, d % 16, 16 * y + e / 16, e % 16);
    And16(x, d / 16, y, e / 16);
    And16(d / 16, d % 16, e / 16, e % 16);
  }

  /** `n` fields of two, four and eight bits that all hold the same. */
  function Mask4(m: nat, n: nat): nat {
    if n == 0 then 0 else 4 * Mask4(m, n - 1) + m
  }

  function Mask16(m: nat, n: nat): nat {
    if n == 0 then 0 else 16 * Mask16(m, n - 1) + m
  }

  function Mask256(m: nat, n: nat): nat {
    if n == 0 then 0 else 256 * Mask256(m, n - 1) + m
  }

  /** How many ones are in each field of two, four and eight bits. */
  function Ones4(a: nat, n: nat): nat {
    if n == 0 then 0 else 4 * Ones4(a / 4, n - 1) + Popc(a % 4)
  }

  function Ones16(a: nat, n: nat): nat {
    if n == 0 then 0 else 16 * Ones16(a / 16, n - 1) + Popc(a % 16)
  }

  function Ones256(a: nat, n: nat): nat {
    if n == 0 then 0 else 256 * Ones256(a / 256, n - 1) + Popc(a % 256)
  }

  lemma PopcSmall(d: nat)
    ensures d < 4 ==> Popc(d) == d - d / 2 <= 2
  {
  }

  lemma Popc2(q: nat, i: nat)
    requires i < 2
    ensures Popc(2 * q + i) == Popc(q) + i
  {
    assert (2 * q + i) / 2 == q;
  }

  lemma Popc4(q: nat, d: nat)
    requires d < 4
    ensures Popc(4 * q + d) == Popc(q) + Popc(d)
  {
    hide Popc;
    var h, l := d / 2, d % 2;
    assert 4 * q + d == 2 * (2 * q + h) + l && d == 2 * h + l;
    Popc2(2 * q + h, l);
    Popc2(q, h);
    Popc2(h, l);
    PopcSmall(h);
  }

  lemma Popc16(q: nat, d: nat)
    requires d < 16
    ensures Popc(16 * q + d) == Popc(q) + Popc(d)
    ensures Popc(d) == Popc(d / 4) + Popc(d % 4) <= 4
  {
    hide Popc;
    Popc4(4 * q + d / 4, d % 4);
    Popc4(q, d / 4);
    Popc4(d / 4, d % 4);
    PopcSmall(d / 4);
    PopcSmall(d % 4);
  }

  lemma Popc256(q: nat, d: nat)
    requires d < 256
    ensures Popc(256 * q + d) == Popc(q) + Popc(d)
    ensures Popc(d) == Popc(d / 16) + Popc(d % 16) <= 8
  {
    hide Popc;
    Popc16(16 * q + d / 16, d % 16);
    Popc16(q, d / 16);
    Popc16(d / 16, d % 16);
  }

  lemma AndSmall(d: nat)
    requires d < 4
    ensures And(d, 1) == d % 2 && And(d, 3) == d
  {
  }

  lemma LowBits(x: nat)
    requires x < 16
    ensures And(x % 4, 1) == x % 2 && And(x, 3) == x % 4
  {
    hide And;
    AndSmall(x % 4);
    And4(x / 4, x % 4, 0, 3);
    AndZero(x / 4);
  }

  lemma LowNibble(x: nat)
    requires x < 256
    ensures And(x, 15) == x % 16
  {
    hide And;
    And16(x / 16, x % 16, 0, 15);
    And4(x % 16 / 4, x % 4, 3, 3);
    LowBits(x % 16);
    LowBits(x % 16 / 4);
    LowBits(x % 4);
    AndZero(x / 16);
  }

  lemma AndZero(x: nat)
    ensures And(x, 0) == 0
  {
  }

  lemma PairStep(q: nat, d: nat, m: nat)
    requires d < 4
    ensures And((4 * q + d) / 2, 4 * m + 1) == 4 * And(q / 2, m) + d / 2
  {
    hide And;
    var x := 2 * (q % 2) + d / 2;
    assert (4 * q + d) / 2 == 4 * (q / 2) + x;
    And4(q / 2, x, m, 1);
    LowBits(x);
  }

  /** Subtracting the upper bit of each pair leaves its count. */
  lemma {:induction false} Pairs(a: nat, n: nat)
    requires a < Pow4(n)
    ensures And(a / 2, Mask4(1, n)) <= a
    ensures a - And(a / 2, Mask4(1, n)) == Ones4(a, n)
  {
    hide And, Popc;
    if n > 0 {
      Pairs(a / 4, n - 1);
      PairStep(a / 4, a % 4, Mask4(1, n - 1));
      PopcSmall(a % 4);
    } else {
      AndZero(a / 2);
    }
  }

  function Pow4(n: nat): nat {
    if n == 0 then 1 else 4 * Pow4(n - 1)
  }

  lemma NibbleStep(q: nat, lo: nat, hi: nat, m: nat, x: nat)
    requires lo <= 2 && hi <= 2 && x == 16 * q + 4 * hi + lo
    ensures And(x, 16 * m + 3) == 16 * And(q, m) + lo
    ensures And(x / 4, 16 * m + 3) == 16 * And(q / 4, m) + hi
  {
    hide And;
    var y := 4 * (q % 4) + hi;
    assert x / 4 == 16 * (q / 4) + y;
    And16(q, 4 * hi + lo, m, 3);
    And16(q / 4, y, m, 3);
    LowBits(4 * hi + lo);
    LowBits(y);
  }

  /** Adding neighbouring pairs. */
  lemma {:induction false} Nibbles(a: nat, n: nat)
    ensures And(Ones4(a, 2 * n), Mask16(3, n)) + And(Ones4(a, 2 * n) / 4, Mask16(3, n)) == Ones16(a, n)
  {
    hide And, Popc, Ones4;
    if n > 0 {
      TwoPairs(a, n);
      Nibbles(a / 16, n - 1);
      NibbleStep(Ones4(a / 16, 2 * (n - 1)), Popc(a % 4), Popc(a / 4 % 4), Mask16(3, n - 1), Ones4(a, 2 * n));
    } else {
      AndZero(Ones4(a, 0));
      AndZero(Ones4(a, 0) / 4);
    }
  }

  lemma ByFour(a: nat)
    ensures a == 4 * (4 * (a / 16) + a / 4 % 4) + a % 4 && a % 16 == 4 * (a / 4 % 4) + a % 4
  {
    DivModUnique(a, 16, a / 4 / 4, 4 * (a / 4 % 4) + a % 4);
  }

  lemma BySixteen(a: nat)
    ensures a == 16 * (16 * (a / 256) + a / 16 % 16) + a % 16 && a % 256 == 16 * (a / 16 % 16) + a % 16
  {
    DivModUnique(a, 256, a / 16 / 16, 16 * (a / 16 % 16) + a % 16);
  }

  lemma Ones4Join(q: nat, d: nat, n: nat)
    requires d < 4
    ensures Ones4(4 * q + d, n + 1) == 4 * Ones4(q, n) + Popc(d)
  {
    hide Popc;
    assert (4 * q + d) / 4 == q;
  }

  lemma Ones16Join(q: nat, d: nat, n: nat)
    requires d < 16
    ensures Ones16(16 * q + d, n + 1) == 16 * Ones16(q, n) + Popc(d)
  {
    hide Popc;
    assert (16 * q + d) / 16 == q;
  }

  lemma PairsJoin(q: nat, hi: nat, lo: nat, n: nat)
    requires hi < 4 && lo < 4
    ensures Ones4(4 * (4 * q + hi) + lo, n + 2) == 16 * Ones4(q, n) + 4 * Popc(hi) + Popc(lo)
    ensures Popc(lo) <= 2 && Popc(hi) <= 2 && Popc(4 * hi + lo) == Popc(hi) + Popc(lo)
  {
    hide Popc, Ones4;
    Ones4Join(4 * q + hi, lo, n + 1);
    Ones4Join(q, hi, n);
    PopcSmall(lo);
    PopcSmall(hi);
    Popc4(hi, lo);
  }

  lemma NibblesJoin(q: nat, hi: nat, lo: nat, n: nat)
    requires hi < 16 && lo < 16
    ensures Ones16(16 * (16 * q + hi) + lo, n + 2) == 256 * Ones16(q, n) + 16 * Popc(hi) + Popc(lo)
    ensures Popc(lo) <= 4 && Popc(hi) <= 4 && Popc(16 * hi + lo) == Popc(hi) + Popc(lo)
  {
    hide Popc, Ones16;
    Ones16Join(16 * q + hi, lo, n + 1);
    Ones16Join(q, hi, n);
    Popc16(q, hi);
    Popc16(hi, lo);
  }

  lemma TwoPairs(a: nat, n: nat)
    requires n > 0
    ensures Ones4(a, 2 * n) == 16 * Ones4(a / 16, 2 * (n - 1)) + 4 * Popc(a / 4 % 4) + Popc(a % 4)
    ensures Popc(a % 4) <= 2 && Popc(a / 4 % 4) <= 2 && Popc(a % 16) == Popc(a / 4 % 4) + Popc(a % 4)
  {
    hide Popc, Ones4;
    ByFour(a);
    PairsJoin(a / 16, a / 4 % 4, a % 4, 2 * (n - 1));
  }

  lemma TwoNibbles(a: nat, n: nat)
    requires n > 0
    ensures Ones16(a, 2 * n) == 256 * Ones16(a / 256, 2 * (n - 1)) + 16 * Popc(a / 16 % 16) + Popc(a % 16)
    ensures Popc(a % 16) <= 4 && Popc(a / 16 % 16) <= 4 && Popc(a % 256) == Popc(a / 16 % 16) + Popc(a % 16)
  {
    hide Popc, Ones16;
    BySixteen(a);
    NibblesJoin(a / 256, a / 16 % 16, a % 16, 2 * (n - 1));
  }

  lemma OctetStep(q: nat, lo: nat, hi: nat, m: nat, y: nat)
    requires lo <= 4 && hi <= 4 && q % 16 <= 4 && y == 256 * q + 16 * hi + lo
    ensures And(y + y / 16, 256 * m + 15) == 256 * And(q + q / 16, m) + (lo + hi)
  {
    hide And;
    var x := 16 * (hi + q % 16) + (lo + hi);
    assert y / 16 == 16 * q + hi;
    assert y + y / 16 == 256 * (q + q / 16) + x;
    And256(q + q / 16, x, m, 15);
    LowNibble(x);
  }

  /** Adding neighbouring nibbles; their sums cannot run into each other. */
  lemma {:induction false} Octets(a: nat, n: nat)
    ensures And(Ones16(a, 2 * n) + Ones16(a, 2 * n) / 16, Mask256(15, n)) == Ones256(a, n)
  {
    hide And, Popc, Ones16;
    if n > 0 {
      TwoNibbles(a, n);
      Octets(a / 256, n - 1);
      SmallField(a / 256, n - 1);
      OctetStep(Ones16(a / 256, 2 * (n - 1)), Popc(a % 16), Popc(a / 16 % 16), Mask256(15, n - 1), Ones16(a, 2 * n));
    } else {
      NoOnes(a);
      AndZero(Ones16(a, 0) + Ones16(a, 0) / 16);
    }
  }

  lemma SmallField(a: nat, n: nat)
    ensures Ones16(a, 2 * n) % 16 <= 4
  {
    hide Popc;
    Popc16(0, a % 16);
  }

  lemma NoOnes(a: nat)
    ensures Ones16(a, 0) == 0
  {
  }

  /** The counts of the four bytes, added up in the highest byte of a product. */
  lemma TopByte(b0: nat, b1: nat, b2: nat, b3: nat, z: nat)
    requires b0 <= 8 && b1 <= 8 && b2 <= 8 && b3 <= 8 && z == 0x100_0000 * b3 + 0x1_0000 * b2 + 256 * b1 + b0
    ensures z * 0x101_0101 % 0x1_0000_0000 / 0x100_0000 == b0 + b1 + b2 + b3
  {
    var low := 0x1_0000 * (b0 + b1 + b2) + 256 * (b0 + b1) + b0;
    var high := 0x1_0000 * b3 + 256 * (b2 + b3) + (b1 + b2 + b3);
    var mid := 0x100_0000 * (b0 + b1 + b2 + b3) + low;
    assert z * 0x101_0101 == 0x1_0000_0000 * high + mid;
    DivModUnique(z * 0x101_0101, 0x1_0000_0000, high, mid);
    DivModUnique(mid, 0x100_0000, b0 + b1 + b2 + b3, low);
  }

  method CountOnes(a: U32) returns (r: nat)
    ensures r == Popc(a)
  {
    hide And, Popc, Mask4, Mask16, Mask256, Ones4, Ones16, Ones256, Pow4;
    Masks();
    Pairs(a, 16);
    var x := a - And(a / 2, 0x5555_5555);
    Nibbles(a, 8);
    x := And(x, 0x3333_3333) + And(x / 4, 0x3333_3333);
    Octets(a, 4);
    x := And(x + x / 16, 0xf0f_0f0f);
    FourBytes(a);
    r := x * 0x101_0101 % 0x1_0000_0000 / 0x100_0000;
  }

  lemma Masks()
    ensures Mask4(1, 16) == 0x5555_5555 && Mask16(3, 8) == 0x3333_3333 && Mask256(15, 4) == 0xf0f_0f0f
    ensures Pow4(16) == 0x1_0000_0000
  {
    assert Mask4(1, 8) == 0x5555 && Pow4(8) == 0x1_0000;
    assert Mask4(1, 12) == 0x55_5555 && Pow4(12) == 0x100_0000;
    assert Mask16(3, 4) == 0x3333;
  }

  lemma FourBytes(a: U32)
    ensures Ones256(a, 4) * 0x101_0101 % 0x1_0000_0000 / 0x100_0000 == Popc(a)
  {
    hide Popc, Ones256;
    var b1 := a / 256;
    var b2 := b1 / 256;
    var b3 := b2 / 256;
    OneByte(a, 3);
    OneByte(b1, 2);
    OneByte(b2, 1);
    OneByte(b3, 0);
    assert b3 / 256 == 0;
    PopcSmall(0);
    TopByte(Popc(a % 256), Popc(b1 % 256), Popc(b2 % 256), Popc(b3 % 256), Ones256(a, 4));
  }

  lemma OneByte(a: nat, n: nat)
    ensures Ones256(a, n + 1) == 256 * Ones256(a / 256, n) + Popc(a % 256) && Ones256(a / 256, 0) == 0
    ensures Popc(a) == Popc(a / 256) + Popc(a % 256) && Popc(a % 256) <= 8
  {
    hide Popc;
    Popc256(a / 256, a % 256);
  }
}
