/** Exclusive or, and 32-bit tag words: their fields, their bytes, and xor field by field. */
module Words {
  import opened Basics
  import opened Tags

  predicate Odd(a: nat) {
    a % 2 == 1
  }

  function Xor(a: nat, b: nat): nat {
    if a == 0 then b
    else if b == 0 then a
    else (if Odd(a) != Odd(b) then 1 else 0) + 2 * Xor(a / 2, b / 2)
  }

  lemma XorStep(a: nat, b: nat)
    ensures Odd(Xor(a, b)) == (Odd(a) != Odd(b)) && Xor(a, b) / 2 == Xor(a / 2, b / 2)
  {
  }

  lemma SameHalves(a: nat, b: nat)
    requires Odd(a) == Odd(b) && a / 2 == b / 2
    ensures a == b
  {
  }

  lemma {:induction false} XorComm(a: nat, b: nat)
    ensures Xor(a, b) == Xor(b, a)
  {
    if a != 0 && b != 0 {
      XorComm(a / 2, b / 2);
    }
  }

  lemma {:induction false} XorSelf(a: nat)
    ensures Xor(a, a) == 0
  {
    if a != 0 {
      XorSelf(a / 2);
    }
  }

  lemma {:induction false} XorAssoc(a: nat, b: nat, c: nat)
    ensures Xor(Xor(a, b), c) == Xor(a, Xor(b, c))
  {
    if a != 0 && b != 0 && c != 0 {
      XorAssoc(a / 2, b / 2, c / 2);
      var l, r := Xor(Xor(a, b), c), Xor(a, Xor(b, c));
      assert Odd(l) == Odd(r) && l / 2 == r / 2 by {
        XorStep(a, b);
        XorStep(b, c);
        XorStep(Xor(a, b), c);
        XorStep(a, Xor(b, c));
      }
      SameHalves(l, r);
    }
  }

  lemma XorCancel(a: nat, b: nat)
    ensures Xor(Xor(a, b), b) == a
  {
    XorAssoc(a, b, b);
    XorSelf(b);
  }

  lemma {:induction false} XorBound(a: nat, b: nat, n: nat)
    requires a < Pow2(n) && b < Pow2(n)
    ensures Xor(a, b) < Pow2(n)
  {
    if n != 0 {
      XorBound(a / 2, b / 2, n - 1);
    }
  }

  /** `x` shifted left over the lowest `n` bits of `s`. */
  function Join(n: nat, x: nat, s: nat): nat {
    if n == 0 then x else 2 * Join(n - 1, x, s / 2) + s % 2
  }

  lemma {:induction false} XorJoin(n: nat, x: nat, y: nat, s: nat, t: nat)
    ensures Xor(Join(n, x, s), Join(n, y, t)) == Join(n, Xor(x, y), Xor(s, t))
  {
    if n != 0 {
      XorJoin(n - 1, x, y, s / 2, t / 2);
      XorStep(s, t);
      XorDoubled(Join(n - 1, x, s / 2), Join(n - 1, y, t / 2), s % 2, t % 2);
    }
  }

  lemma XorDoubled(a: nat, b: nat, i: nat, j: nat)
    requires i < 2 && j < 2
    ensures Xor(2 * a + i, 2 * b + j) == 2 * Xor(a, b) + if i != j then 1 else 0
  {
    XorStep(2 * a + i, 2 * b + j);
    hide Xor;
    assert (2 * a + i) / 2 == a && (2 * b + j) / 2 == b;
    var x := Xor(2 * a + i, 2 * b + j);
    assert x == 2 * (x / 2) + x % 2;
  }

  // ----- machine words

  function LE(w: U32): (b: seq<Byte>)
    ensures |b| == 4
  {
    var h, l := w / 0x1_0000, w % 0x1_0000;
    [l % 0x100, l / 0x100, h % 0x100, h / 0x100]
  }

  function FromLE(b: seq<Byte>): U32
    requires |b| == 4
  {
    0x1_0000 * (0x100 * (b[3] as int) + b[2]) + (0x100 * (b[1] as int) + b[0])
  }

  lemma LERoundTrip(w: U32)
    ensures FromLE(LE(w)) == w
  {
  }

  /** A tag word: the top bit, and the fields below it. On disk a clear top bit marks a valid tag. */
  datatype Word = Word(top: bool, tag: Tag)

  const ONES := Word(true, Tag(0x7ff, 0x3ff, 0x3ff))

  function Raw(w: Word): nat {
    (if w.top then 0x8000_0000 else 0) + Pack(w.tag)
  }

  function FromRaw(n: nat): (w: Word)
    ensures w.tag.Ok()
  {
    Word(n >= 0x8000_0000, Unpack(n))
  }

  lemma RawRoundTrip(w: Word)
    requires w.tag.Ok()
    ensures FromRaw(Raw(w)) == w
  {
    var n := Raw(w);
    assert n / 0x400 == (if w.top then 0x20_0000 else 0) + w.tag.typ * 0x400 + w.tag.id;
    assert n / 0x10_0000 == (if w.top then 0x800 else 0) + w.tag.typ;
  }

  function BE(w: Word): (b: seq<Byte>)
    requires w.tag.Ok()
    ensures |b| == 4
  {
    var h, l := Raw(w) / 0x1_0000, Raw(w) % 0x1_0000;
    [h / 0x100, h % 0x100, l / 0x100, l % 0x100]
  }

  function FromBE(b: seq<Byte>): (w: Word)
    requires |b| == 4
    ensures w.tag.Ok()
  {
    FromRaw(0x1_0000 * (0x100 * (b[0] as int) + b[1]) + (0x100 * (b[2] as int) + b[3]))
  }

  lemma BERoundTrip(w: Word)
    requires w.tag.Ok()
    ensures FromBE(BE(w)) == w
  {
    RawRoundTrip(w);
  }

  lemma BEInverse(b: seq<Byte>)
    requires |b| == 4
    ensures BE(FromBE(b)) == b
  {
    hide Raw, FromRaw;
    var h, l := 0x100 * (b[0] as int) + b[1], 0x100 * (b[2] as int) + b[3];
    RawInverse(0x1_0000 * h + l);
    Halves(h, l, 0x1_0000);
    Halves(b[0], b[1], 0x100);
    Halves(b[2], b[3], 0x100);
  }

  lemma Halves(h: nat, l: nat, unit: nat)
    requires l < unit && (unit == 0x100 || unit == 0x1_0000)
    ensures (unit * h + l) / unit == h && (unit * h + l) % unit == l
  {
    if unit == 0x100 {
    } else {
    }
  }

  lemma RawInverse(n: nat)
    requires n < 0x1_0000_0000
    ensures Raw(FromRaw(n)) == n
  {
    var q := n / 0x400;
    assert n / 0x10_0000 == q / 0x400;
    assert q / 0x400 % 0x800 == if n >= 0x8000_0000 then q / 0x400 - 0x800 else q / 0x400;
  }

  /** Bitwise, hence field by field. */
  function XorWord(a: Word, b: Word): (w: Word)
    requires a.tag.Ok() && b.tag.Ok()
    ensures w.tag.Ok()
  {
    XorBound(a.tag.typ, b.tag.typ, 11);
    XorBound(a.tag.id, b.tag.id, 10);
    XorBound(a.tag.size, b.tag.size, 10);
    Word(a.top != b.top, Tag(Xor(a.tag.typ, b.tag.typ), Xor(a.tag.id, b.tag.id), Xor(a.tag.size, b.tag.size)))
  }

  lemma {:induction false} JoinValue(n: nat, x: nat, s: nat)
    requires s < Pow2(n)
    ensures Join(n, x, s) == x * Pow2(n) + s
  {
    if n != 0 {
      JoinValue(n - 1, x, s / 2);
      assert x * (2 * Pow2(n - 1)) == 2 * (x * Pow2(n - 1));
    }
  }

  lemma RawJoin(w: Word)
    requires w.tag.Ok()
    ensures Raw(w) == Join(10, Join(10, (if w.top then 0x800 else 0) + w.tag.typ, w.tag.id), w.tag.size)
  {
    hide Join, Pow2;
    PowTen();
    var typ := (if w.top then 0x800 else 0) + w.tag.typ;
    JoinValue(10, typ, w.tag.id);
    JoinValue(10, Join(10, typ, w.tag.id), w.tag.size);
  }

  lemma PowTen()
    ensures Pow2(10) == 0x400
  {
  }

  lemma TopJoin(top: bool, typ: nat)
    requires typ < 0x800
    ensures (if top then 0x800 else 0) + typ == Join(11, if top then 1 else 0, typ)
  {
    JoinValue(11, if top then 1 else 0, typ);
  }

  /** Xoring two words as numbers is xoring their fields. */
  lemma XorRaw(a: Word, b: Word)
    requires a.tag.Ok() && b.tag.Ok()
    ensures Xor(Raw(a), Raw(b)) == Raw(XorWord(a, b))
  {
    hide Join, Xor, Raw;
    var w := XorWord(a, b);
    var s, t, u := Join(11, Bit(a.top), a.tag.typ), Join(11, Bit(b.top), b.tag.typ), Join(11, Bit(w.top), w.tag.typ);
    RawJoin(a);
    RawJoin(b);
    RawJoin(w);
    TopJoin(a.top, a.tag.typ);
    TopJoin(b.top, b.tag.typ);
    TopJoin(w.top, w.tag.typ);
    XorBits(a.top, b.top);
    XorJoin(11, Bit(a.top), Bit(b.top), a.tag.typ, b.tag.typ);
    XorJoin(10, s, t, a.tag.id, b.tag.id);
    XorJoin(10, Join(10, s, a.tag.id), Join(10, t, b.tag.id), a.tag.size, b.tag.size);
  }

  function Bit(b: bool): nat {
    if b then 1 else 0
  }

  lemma XorBits(a: bool, b: bool)
    ensures Xor(Bit(a), Bit(b)) == Bit(a != b)
  {
  }

  lemma XorWordCancel(a: Word, b: Word)
    requires a.tag.Ok() && b.tag.Ok()
    ensures XorWord(XorWord(a, b), b) == a
    ensures XorWord(XorWord(a, b), a) == b
  {
    forall x: nat, y: nat ensures Xor(Xor(x, y), y) == x && Xor(Xor(x, y), x) == y {
      XorCancel(x, y);
      XorComm(x, y);
      XorCancel(y, x);
    }
  }

  /** The space a record takes: its tag and the bytes its size field says. */
  function DSize(w: Word): nat {
    4 + DataSize(w.tag)
  }

  predicate IsCrcTag(w: Word) {
    Type1(w.tag) == 0x500
  }

  /** What the next tag is xored with. The low type bit of a checksum tag says that the word after
      it reads, when erased, with a clear top bit; it is folded into the chain to make up for that.
   */
  function Chain(w: Word): Word {
    if IsCrcTag(w) && Odd(w.tag.typ) then w.(top := !w.top) else w
  }

  function CrcTag(reset: bool, size: nat): Word {
    Word(false, Tag(if reset then 0x501 else 0x500, NO_ID, size))
  }
}
