/** The arithmetic of the file skip list: which block of a file holds a position. */
module CtzMath {
  import opened Basics
  import opened Align

  /** Binary ones. */
  function Popc(n: nat): nat {
    if n == 0 then 0 else n % 2 + Popc(n / 2)
  }

  /** Trailing binary zeros. */
  function Ctz(n: nat): nat
    requires n > 0
  {
    if n % 2 == 1 then 0 else 1 + Ctz(n / 2)
  }

  /** Binary digits. */
  function BitLen(n: nat): nat {
    if n == 0 then 0 else 1 + BitLen(n / 2)
  }

  /** The exponent of the smallest power of two that is at least a. */
  function Npw2(a: nat): nat
    requires a > 0
  {
    BitLen(a - 1)
  }

  /** Counting down by one turns the lowest one and the zeros below it around. */
  lemma {:induction false} PopcBelow(n: nat)
    requires n > 0
    ensures Popc(n - 1) + 1 == Popc(n) + Ctz(n)
  {
    if n % 2 == 1 {
      assert (n - 1) / 2 == n / 2;
    } else {
      assert (n - 1) / 2 == n / 2 - 1;
      PopcBelow(n / 2);
    }
  }

  // ----- positions, by adding up what the blocks hold

  /** A block holds as many pointers as its index has trailing zeros, and one. Block 0 holds none. */
  function Pointers(n: nat): nat {
    if n == 0 then 0 else Ctz(n) + 1
  }

  /** The file bytes before block n, for blocks of size `bs`. */
  function Start(bs: nat, n: nat): int {
    if n == 0 then 0 else Start(bs, n - 1) + bs - 4 * Pointers(n - 1)
  }

  /** The pointers of the blocks 1 to n number 2n - popc(n), so the sum has a closed form. */
  lemma {:induction false} StartClosed(bs: nat, n: nat)
    requires n > 0 && bs >= 8
    ensures Start(bs, n) == n * (bs - 8) + 8 + 4 * Popc(n - 1)
  {
    if n > 1 {
      StartClosed(bs, n - 1);
      PopcBelow(n - 1);
      assert n * (bs - 8) == (n - 1) * (bs - 8) + (bs - 8);
    }
  }

  /** The block and the offset in it of a file position. */
  predicate Locates(bs: nat, pos: nat, index: nat, off: int) {
    && Start(bs, index) <= pos < Start(bs, index + 1)
    && off == pos - Start(bs, index) + 4 * Pointers(index)
  }

  // ----- the closed form

  const WORD: nat := 0x1_0000_0000

  /** lfs_ctz_index, in unsigned 32-bit arithmetic. */
  function Index(bs: nat, size: nat): (int, int)
    requires bs > 8
  {
    var b := bs - 8;
    var i := Over(size, b);
    if i == 0 then (0, size)
    else
      var i' := Over(Below(size, 4 * (Popc(i - 1) + 2)), b);
      (i', OffsetIn(size, b, i'))
  }

  function Over(x: nat, b: nat): nat
    requires b > 0
  {
    DivNat(x, b);
    x / b
  }

  function OffsetIn(size: nat, b: nat, i: nat): int {
    Below(size, b * i + 4 * Popc(i))
  }

  /** a - b, wrapping around. */
  function Below(a: nat, b: int): nat {
    (a - b) % WORD
  }

  /** Blocks leave enough room for their pointers, for files of up to `limit` bytes. */
  ghost predicate Roomy(bs: nat, limit: nat) {
    forall p: nat :: Span(bs, p) <= limit ==> 8 + 4 * p <= bs - 8
  }

  /** About the position at which block 2^p begins. */
  function Span(bs: nat, p: nat): int {
    Pow2(p) * (bs - 8)
  }

  predicate IndexRight(bs: nat, size: nat)
    requires bs > 8
  {
    var (i, off) := Index(bs, size);
    i >= 0 && Locates(bs, size, i, off)
  }

  lemma {:induction false} PopcFull(n: nat, k: nat)
    requires n < Pow2(k)
    ensures Popc(n) <= k
  {
    if n > 0 {
      PopcFull(n / 2, k - 1);
    }
  }

  lemma {:induction false} PopcBelowFull(n: nat, k: nat)
    requires n + 1 < Pow2(k + 1)
    ensures Popc(n) <= k
  {
    if n > 0 {
      if n % 2 == 0 {
        PopcFull(n / 2, k);
      } else {
        PopcBelowFull(n / 2, k - 1);
      }
    }
  }

  lemma {:induction false} BitLenBounds(n: nat)
    requires n > 0
    ensures BitLen(n) > 0 && Pow2(BitLen(n) - 1) <= n < Pow2(BitLen(n))
  {
    if n > 1 {
      BitLenBounds(n / 2);
    }
  }

  lemma MulMono(x: nat, y: nat, z: nat)
    requires x <= y
    ensures x * z <= y * z
  {
  }

  lemma DivMul(size: nat, b: nat)
    requires b > 0
    ensures size == size / b * b + size % b
  {
  }

  lemma MulPred(i: int, b: int)
    ensures (i - 1) * b == i * b - b
  {
  }

  lemma RoomFor(bs: nat, size: nat, n: nat)
    requires bs >= 16 && Roomy(bs, size) && n + 1 <= size / (bs - 8)
    ensures 8 + 4 * Popc(n) <= bs - 8
  {
    hide Popc, Pow2, BitLen;
    var i := size / (bs - 8);
    BitLenBounds(i);
    var p := BitLen(i) - 1;
    SpanBelow(bs, size, i, p);
    PopcBelowFull(n, p);
  }

  lemma SpanBelow(bs: nat, size: nat, i: nat, p: nat)
    requires bs >= 16 && i == size / (bs - 8) && Pow2(p) <= i
    ensures Span(bs, p) <= size
  {
    hide Pow2;
    MulMono(Pow2(p), i, bs - 8);
    DivMul(size, bs - 8);
  }

  lemma IndexLocates(bs: nat, size: nat)
    requires bs >= 16 && size < WORD && Roomy(bs, size)
    ensures IndexRight(bs, size)
  {
    hide Popc, Roomy, Locates, OffsetIn, Index;
    var b, i := bs - 8, size / (bs - 8);
    IndexParts(bs, size);
    if i == 0 {
      DivMul(size, b);
      InFirst(bs, size);
    } else {
      RoomFor(bs, size, i - 1);
      var q := 8 + 4 * Popc(i - 1);
      Quotient(size, b, i, q);
      if size % b >= q {
        Upper(bs, size, i);
      } else {
        if i > 1 {
          RoomFor(bs, size, i - 2);
        }
        Lower(bs, size, i);
      }
    }
  }

  /** The formula, where its subtraction does not wrap around. */
  lemma IndexParts(bs: nat, size: nat)
    requires bs > 8 && size < WORD
    ensures var i := size / (bs - 8);
      && i >= 0
      && (i == 0 ==> Index(bs, size) == (0, size))
      && (i > 0 && 8 + 4 * Popc(i - 1) <= size ==>
            var i' := (size - (8 + 4 * Popc(i - 1))) / (bs - 8);
            i' >= 0 && Index(bs, size) == (i', OffsetIn(size, bs - 8, i')))
  {
    hide Popc, OffsetIn;
    var i := size / (bs - 8);
    DivNat(size, bs - 8);
    if i > 0 {
      var q := 8 + 4 * Popc(i - 1);
      NoWrap(size, q);
      if q <= size {
        DivNat(size - q, bs - 8);
      }
    }
  }

  lemma DivNat(x: nat, b: nat)
    requires b > 0
    ensures x / b >= 0
  {
  }

  lemma NoWrap(a: nat, b: nat)
    requires a < WORD
    ensures b <= a ==> Below(a, b) == a - b
  {
  }

  lemma Upper(bs: nat, size: nat, i: nat)
    requires bs >= 16 && size < WORD && i == size / (bs - 8) > 0 && size % (bs - 8) >= 8 + 4 * Popc(i - 1)
    ensures Locates(bs, size, i, OffsetIn(size, bs - 8, i))
  {
    hide Popc, Locates, OffsetIn;
    DivMul(size, bs - 8);
    LocatesAt(bs, size, i, i * (bs - 8));
  }

  lemma Lower(bs: nat, size: nat, i: nat)
    requires bs >= 16 && size < WORD && i == size / (bs - 8) > 0 && size % (bs - 8) < 8 + 4 * Popc(i - 1)
    requires i > 1 ==> 8 + 4 * Popc(i - 2) <= bs - 8
    ensures Locates(bs, size, i - 1, OffsetIn(size, bs - 8, i - 1))
  {
    hide Popc, Locates, OffsetIn;
    DivMul(size, bs - 8);
    MulPred(i, bs - 8);
    MulMono(0, i - 1, bs - 8);
    LocatesAt(bs, size, i - 1, (i - 1) * (bs - 8));
  }

  lemma InFirst(bs: nat, size: nat)
    requires 8 < bs && size < bs
    ensures Locates(bs, size, 0, size)
  {
    assert Start(bs, 1) == bs;
  }

  /** Taking at most a divisor off lowers the quotient by one or not at all. */
  lemma Quotient(size: nat, b: nat, i: nat, q: nat)
    requires b > 0 && i == size / b && i > 0 && q <= b
    ensures 0 <= size - q
    ensures (size - q) / b == if size % b >= q then i else i - 1
  {
    var r := size % b;
    DivMul(size, b);
    MulPred(i, b);
    assert i * b >= b by {
      MulMono(1, i, b);
    }
    if r >= q {
      DivModUnique(size - q, b, i, r - q);
    } else {
      DivModUnique(size - q, b, i - 1, b + r - q);
    }
  }

  /** Where a block starts and the offset in it, with the product as a number of its own. */
  lemma StartAt(bs: nat, size: nat, i: nat, ib: nat)
    requires bs >= 16 && ib == i * (bs - 8)
    ensures Start(bs, i + 1) == ib + bs + 4 * Popc(i)
    ensures i > 0 ==> Start(bs, i) == ib + 8 + 4 * Popc(i - 1)
    ensures OffsetIn(size, bs - 8, i) == Below(size, ib + 4 * Popc(i))
  {
    hide Popc, Start, Below;
    StartClosed(bs, i + 1);
    MulPred(i + 1, bs - 8);
    if i > 0 {
      StartClosed(bs, i);
    }
    assert (bs - 8) * i == ib;
  }

  /** The offset formula is right for the right block. */
  lemma LocatesAt(bs: nat, size: nat, i: nat, ib: nat)
    requires bs >= 16 && size < WORD && ib == i * (bs - 8)
    requires i > 0 ==> ib + 8 + 4 * Popc(i - 1) <= size
    requires size < ib + bs + 4 * Popc(i)
    ensures Locates(bs, size, i, OffsetIn(size, bs - 8, i))
  {
    hide Popc, Ctz, Start, OffsetIn;
    StartAt(bs, size, i, ib);
    if i > 0 {
      PopcBelow(i);
      OffsetFits(bs, size, ib, Popc(i), Popc(i - 1), Ctz(i));
    } else {
      NoBits(bs);
    }
  }

  lemma NoBits(bs: nat)
    ensures Popc(0) == 0 && Start(bs, 0) == 0
  {
  }

  lemma OffsetFits(bs: nat, size: nat, ib: nat, p: nat, p': nat, z: nat)
    requires p' + 1 == p + z && ib + 8 + 4 * p' <= size < WORD
    ensures Below(size, ib + 4 * p) == size - (ib + 8 + 4 * p') + 4 * (z + 1)
  {
  }

  // ----- and where there is not enough room, the closed form goes wrong

  lemma {:induction false} PopcOnes(p: nat)
    ensures Popc(Pow2(p) - 1) == p
  {
    if p > 0 {
      PopcOnes(p - 1);
      assert (Pow2(p) - 1) / 2 == Pow2(p - 1) - 1;
    }
  }

  lemma {:induction false} CtzBound(k: nat, p: nat)
    requires 0 < k < Pow2(p)
    ensures Ctz(k) < p
  {
    if k % 2 == 0 {
      CtzBound(k / 2, p - 1);
    }
  }

  lemma {:induction false} StartMono(bs: nat, n: nat, m: nat, p: nat)
    requires n <= m <= Pow2(p) && 4 * p <= bs
    ensures Start(bs, n) <= Start(bs, m)
    decreases m
  {
    if n < m {
      StartMono(bs, n, m - 1, p);
      if m > 1 {
        CtzBound(m - 1, p);
      }
    }
  }

  /** Each block holds some of the file, so a position lies in one block only. */
  lemma LocatesUnique(bs: nat, pos: nat, i: nat, j: nat, off: int, off': int, p: nat)
    requires i < Pow2(p) && j < Pow2(p) && 4 * p <= bs
    requires Locates(bs, pos, i, off) && Locates(bs, pos, j, off')
    ensures i == j && off == off'
  {
    if i < j {
      StartMono(bs, i + 1, j, p);
    } else if j < i {
      StartMono(bs, j + 1, i, p);
    }
  }

  lemma RoomyBelow(bs: nat, size: nat, limit: nat)
    requires Roomy(bs, limit) && size <= limit
    ensures Roomy(bs, size)
  {
    hide Span;
  }

  /** A roomy file has few enough blocks for their pointers to fit. */
  lemma BlockSmall(bs: nat, pos: nat, i: nat, off: int) returns (p: nat)
    requires bs >= 16 && Roomy(bs, pos) && Locates(bs, pos, i, off)
    ensures i < Pow2(p) && 4 * p + 8 <= bs
  {
    hide Span, Pow2, BitLen;
    p := 0;
    if i == 0 {
      PowZero();
    } else {
      StartClosed(bs, i);
      BitLenBounds(i);
      p := BitLen(i);
      MulMono(Pow2(p - 1), i, bs - 8);
      SpanIs(bs, p - 1);
    }
  }

  lemma PowZero()
    ensures Pow2(0) == 1
  {
  }

  lemma SpanIs(bs: nat, p: nat)
    ensures Span(bs, p) == Pow2(p) * (bs - 8)
  {
  }

  /** Later positions are in later blocks. */
  lemma IndexBelow(bs: nat, pos: nat, pos': nat)
    requires bs >= 16 && pos <= pos' < WORD && Roomy(bs, pos')
    ensures IndexRight(bs, pos) && IndexRight(bs, pos')
    ensures 0 <= Index(bs, pos).0 <= Index(bs, pos').0
  {
    hide Roomy, Start, Index, Pow2;
    RoomyBelow(bs, pos, pos');
    IndexLocates(bs, pos);
    IndexLocates(bs, pos');
    var (i, o) := Index(bs, pos);
    var (j, _) := Index(bs, pos');
    if j < i {
      var p := BlockSmall(bs, pos, i, o);
      StartMono(bs, j + 1, i, p);
      assert false;
    }
  }

  lemma FirstBreak(bs: nat, p: nat)
    requires bs >= 16 && p > 0 && 8 + 4 * (p - 1) <= bs - 8 < 8 + 4 * p && Span(bs, p) < WORD
    ensures !IndexRight(bs, Span(bs, p))
  {
    hide Popc, Locates, Span, Pow2, Index;
    BreakValues(bs, p);
    IndexIs(bs, Span(bs, p), Pow2(p), p);
    BreakTooLow(bs, p, Index(bs, Span(bs, p)).0, Span(bs, p));
  }

  lemma BreakValues(bs: nat, p: nat)
    requires bs >= 16 && p > 0 && 8 + 4 * (p - 1) <= bs - 8 < 8 + 4 * p && Span(bs, p) < WORD
    ensures Span(bs, p) >= 0 && Span(bs, p) / (bs - 8) == Pow2(p) > 0 && Popc(Pow2(p) - 1) == p
    ensures 0 <= Span(bs, p) - (8 + 4 * p) < WORD
    ensures 0 <= (Span(bs, p) - (8 + 4 * p)) / (bs - 8) <= Pow2(p) - 2
  {
    hide Popc, Pow2, Span;
    SpanParts(bs, p);
    PopcOnes(p);
    BreakQuotient(bs - 8, Pow2(p), Span(bs, p), 8 + 4 * p, p);
  }

  lemma IndexIs(bs: nat, size: nat, i: nat, pc: nat)
    requires bs > 8 && i == size / (bs - 8) > 0 && pc == Popc(i - 1) && 0 <= size - (8 + 4 * pc) < WORD
    ensures Index(bs, size).0 == (size - (8 + 4 * pc)) / (bs - 8)
  {
    hide Popc;
    var x := size - (8 + 4 * pc);
    assert x % WORD == x;
  }

  lemma SpanParts(bs: nat, p: nat)
    requires bs >= 16 && p > 0
    ensures Pow2(p) >= 2 && Span(bs, p) == (bs - 8) * Pow2(p) && Span(bs, p) / (bs - 8) == Pow2(p)
  {
    Multiple(bs - 8, Pow2(p));
  }

  lemma BreakQuotient(b: nat, i: nat, size: nat, q: nat, p: nat)
    requires b >= 8 && i >= 2 && size == b * i && b < q <= b + 4 && size < WORD
    ensures 0 <= size - q < WORD && 0 <= (size - q) / b <= i - 2
  {
    assert b * i >= 2 * b by {
      MulMono(2, i, b);
    }
    MulPred(i, b);
    QuotientBelow(size - q, b, i - 1);
  }

  lemma QuotientBelow(x: nat, b: nat, m: nat)
    requires b > 0 && x < m * b
    ensures 0 <= x / b < m
  {
    DivMul(x, b);
    var k := x / b;
    if k >= m {
      MulMono(m, k, b);
    }
  }

  lemma BreakTooLow(bs: nat, p: nat, i': nat, size: nat)
    requires bs >= 16 && p > 0 && 8 + 4 * (p - 1) <= bs - 8 && size == Span(bs, p) && i' <= Pow2(p) - 2
    ensures forall off :: !Locates(bs, size, i', off)
  {
    hide Popc;
    var n := Pow2(p) - 1;
    StartMono(bs, i' + 1, n, p);
    StartClosed(bs, n);
    PopcOnes(p);
    PopcBelow(n);
    assert n % 2 == 1;
    MulPred(Pow2(p), bs - 8);
  }

  lemma {:induction false} LeastBreak(bs: nat, p: nat) returns (least: nat)
    requires bs >= 16 && 8 + 4 * p > bs - 8
    ensures 0 < least <= p && 8 + 4 * (least - 1) <= bs - 8 < 8 + 4 * least
  {
    least := p;
    if 8 + 4 * (p - 1) > bs - 8 {
      least := LeastBreak(bs, p - 1);
    }
  }

  lemma {:induction false} SpanMono(bs: nat, p: nat, p': nat)
    requires bs >= 8 && p <= p'
    ensures Span(bs, p) <= Span(bs, p')
  {
    if p < p' {
      SpanMono(bs, p, p' - 1);
      MulMono(Pow2(p' - 1), Pow2(p'), bs - 8);
    }
  }

  /** The closed form is right for all files up to a size exactly if the blocks are roomy for it. */
  lemma IndexRightIff(bs: nat, limit: nat)
    requires bs >= 16 && limit < WORD
    ensures (forall size: nat :: size <= limit ==> IndexRight(bs, size)) <==> Roomy(bs, limit)
  {
    hide IndexRight, Span;
    if Roomy(bs, limit) {
      forall size: nat | size <= limit ensures IndexRight(bs, size) {
        IndexLocates(bs, size);
      }
    } else {
      var p: nat :| Span(bs, p) <= limit && 8 + 4 * p > bs - 8;
      var least := LeastBreak(bs, p);
      SpanMono(bs, least, p);
      SpanPositive(bs, least);
      FirstBreak(bs, least);
      assert !IndexRight(bs, Span(bs, least));
    }
  }

  lemma SpanPositive(bs: nat, p: nat)
    requires bs >= 8
    ensures Span(bs, p) >= 0
  {
  }

  /** Blocks of 128 bytes are roomy for every 32-bit size; blocks of 104, which pass the check when
      the file system is set up, are not.
   */
  lemma BlockSizes(bs: nat)
    ensures bs >= 128 ==> Roomy(bs, WORD - 1)
    ensures !Roomy(104, 0x7fff_ffff) && !IndexRight(104, 805306368)
  {
    if bs >= 128 {
      forall p: nat | Span(bs, p) <= WORD - 1 ensures 8 + 4 * p <= bs - 8 {
        if p >= 26 {
          SpanMono(bs, 26, p);
          BigSpan(bs);
        }
      }
    }
    Powers();
    assert Span(104, 23) == 805306368;
    FirstBreak(104, 23);
  }

  lemma {:induction false} BitLenIs(n: nat, k: nat)
    requires k > 0 && Pow2(k - 1) <= n < Pow2(k)
    ensures BitLen(n) == k
  {
    if k > 1 {
      BitLenIs(n / 2, k - 1);
    }
  }

  lemma SetupAdmits104()
    ensures 4 * Npw2(0xffff_ffff / (104 - 8)) <= 104
  {
    hide BitLen, Pow2;
    assert 0xffff_ffff / 96 == 44739242;
    Powers();
    BitLenIs(44739241, 26);
  }

  lemma Powers()
    ensures Pow2(23) == 8388608 && Pow2(25) == 33554432 && Pow2(26) == 67108864
  {
    assert Pow2(10) == 1024;
    assert Pow2(20) == 1048576;
  }

  lemma BigSpan(bs: nat)
    requires bs >= 128
    ensures Span(bs, 26) > WORD
  {
    Powers();
    assert Span(bs, 26) == 67108864 * (bs - 8);
  }
}
