/** Dividing by a polynomial over the two-element field, in reflected form: remainders shift down, and
    the remainder of a sum is the sum of the remainders.
 */
module Remainders {

  /** Exclusive or. It has a name so that proofs can use its laws instead of its bits. */
  function X(a: bv32, b: bv32): bv32 {
    a ^ b
  }

  function Half(d: bv32): bv32 {
    d >> 1
  }

  predicate Odd(c: bv32) {
    c & 1 == 1
  }

  function BitStep(c: bv32, poly: bv32): bv32 {
    if Odd(c) then X(Half(c), poly) else Half(c)
  }

  function Steps4(c: bv32, poly: bv32): bv32 {
    BitStep(BitStep(BitStep(BitStep(c, poly), poly), poly), poly)
  }

  function Steps8(c: bv32, poly: bv32): bv32 {
    Steps4(Steps4(c, poly), poly)
  }

  const POLY32: bv32 := 0xedb88320
  const POLY16: bv32 := 0xa001

  lemma XHalf(a: bv32, b: bv32)
    ensures Half(X(a, b)) == X(Half(a), Half(b))
  {
  }

  lemma XOdd(a: bv32, b: bv32)
    ensures Odd(X(a, b)) <==> Odd(a) != Odd(b)
  {
  }

  lemma XComm(a: bv32, b: bv32)
    ensures X(a, b) == X(b, a)
  {
  }

  lemma XAssoc(p: bv32, q: bv32, r: bv32)
    ensures X(X(p, q), r) == X(p, X(q, r))
  {
  }

  lemma XZero(a: bv32)
    ensures X(a, 0) == a && X(0, a) == a && X(a, a) == 0
  {
  }

  lemma XSwap(p: bv32, q: bv32, r: bv32)
    ensures X(X(p, q), r) == X(X(p, r), q)
  {
    hide X;
    XAssoc(p, q, r);
    XAssoc(p, r, q);
    XComm(q, r);
  }

  lemma XCancel(p: bv32, q: bv32, r: bv32)
    ensures X(X(p, r), X(q, r)) == X(p, q)
  {
    hide X;
    XAssoc(p, r, X(q, r));
    XComm(q, r);
    XAssoc(r, r, q);
    XZero(r);
    XZero(q);
  }

  lemma StepLinear(a: bv32, b: bv32, poly: bv32)
    ensures BitStep(X(a, b), poly) == X(BitStep(a, poly), BitStep(b, poly))
  {
    hide X, Half, Odd;
    XHalf(a, b);
    XOdd(a, b);
    XSwap(Half(a), Half(b), poly);
    XAssoc(Half(a), Half(b), poly);
    XCancel(Half(a), Half(b), poly);
  }

  lemma StepZero(poly: bv32)
    ensures BitStep(0, poly) == 0
  {
  }

  lemma Steps4Linear(a: bv32, b: bv32, poly: bv32)
    ensures Steps4(X(a, b), poly) == X(Steps4(a, poly), Steps4(b, poly)) && Steps4(0, poly) == 0
  {
    hide BitStep, X;
    StepZero(poly);
    StepLinear(a, b, poly);
    var a1, b1 := BitStep(a, poly), BitStep(b, poly);
    StepLinear(a1, b1, poly);
    var a2, b2 := BitStep(a1, poly), BitStep(b1, poly);
    StepLinear(a2, b2, poly);
    StepLinear(BitStep(a2, poly), BitStep(b2, poly), poly);
  }

  /** The remainder of a sum is the sum of the remainders. */
  lemma Steps8Linear(a: bv32, b: bv32, poly: bv32)
    ensures Steps8(X(a, b), poly) == X(Steps8(a, poly), Steps8(b, poly)) && Steps8(0, poly) == 0
  {
    hide Steps4, X;
    Steps4Linear(a, b, poly);
    Steps4Linear(Steps4(a, poly), Steps4(b, poly), poly);
  }

  lemma SplitLow(x: bv32)
    ensures X(x & 0xffffff00, x & 0xff) == x && (x & 0xffffff00) >> 8 == x >> 8
  {
  }

  lemma ShiftOut(x: bv32, poly: bv32)
    ensures Steps8(x & 0xffffff00, poly) == x >> 8
  {
  }

  lemma SplitNibble(x: bv32)
    ensures X(x & 0xffff_fff0, x & 0xf) == x
  {
  }

  lemma ShiftOutNibble(x: bv32, poly: bv32)
    ensures Steps4(x & 0xffff_fff0, poly) == x >> 4
  {
  }

  /** Four steps depend on the low nibble alone, apart from the shift. */
  lemma NibbleSplit(c: bv32, poly: bv32)
    ensures Steps4(c, poly) == X(c >> 4, Steps4(c & 0xf, poly))
  {
    hide X, Steps4;
    SplitNibble(c);
    Steps4Linear(c & 0xffff_fff0, c & 0xf, poly);
    ShiftOutNibble(c, poly);
  }
}
