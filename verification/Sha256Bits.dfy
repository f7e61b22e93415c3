/**
  What the functions on words compute, bit by bit. Bits are numbered from the least significant one, and positions
  are counted modulo 32.
 */
module Sha256Bits {
  import opened Words
  import opened Sha256Spec

  /** Bit `i` of a word. */
  predicate Bit(x: Word, i: bv5) {
    (x >> (i as Word)) & 1 == 1
  }

  // ------------------------------------------------------------------ single operations

  lemma AndInline(x: Word, y: Word, i: bv5)
    ensures Bit(x & y, i) <==> Bit(x, i) && Bit(y, i)
  {}

  lemma AndBit(x: Word, y: Word, i: bv5)
    ensures Bit(And(x, y), i) <==> Bit(x, i) && Bit(y, i)
  {
    hide Bit;
    AndInline(x, y, i);
  }

  lemma XorInline(x: Word, y: Word, i: bv5)
    ensures Bit(x ^ y, i) <==> Bit(x, i) != Bit(y, i)
  {}

  lemma XorBit(x: Word, y: Word, i: bv5)
    ensures Bit(Xor(x, y), i) <==> Bit(x, i) != Bit(y, i)
  {
    hide Bit;
    XorInline(x, y, i);
  }

  lemma NotBit(x: Word, i: bv5)
    ensures Bit(Not(x), i) <==> !Bit(x, i)
  {}

  lemma OrInline(x: Word, y: Word, i: bv5)
    ensures Bit(x | y, i) <==> Bit(x, i) || Bit(y, i)
  {}

  lemma OrBit(x: Word, y: Word, i: bv5)
    ensures Bit(Or(x, y), i) <==> Bit(x, i) || Bit(y, i)
  {
    hide Bit;
    OrInline(x, y, i);
  }

  lemma RightInline(x: Word, n: Word, i: bv5)
    requires n < 32
    ensures Bit(x >> n, i) <==> (i as Word) + n < 32 && Bit(x, i + (n as bv5))
  {}

  lemma RightBit(x: Word, n: Word, i: bv5)
    requires n < 32
    ensures Bit(Right(x, n), i) <==> (i as Word) + n < 32 && Bit(x, i + (n as bv5))
  {
    hide Bit;
    RightInline(x, n, i);
  }

  lemma LeftInline(x: Word, n: Word, i: bv5)
    requires n < 32
    ensures Bit(x << n, i) <==> n <= (i as Word) && Bit(x, i - (n as bv5))
  {}

  lemma LeftBit(x: Word, n: Word, i: bv5)
    requires n < 32
    ensures Bit(Left(x, n), i) <==> n <= (i as Word) && Bit(x, i - (n as bv5))
  {
    hide Bit;
    LeftInline(x, n, i);
  }

  // -------------------------------------------------------------------- the functions

  /** Ch chooses: where `x` has a bit, that of `y`, and elsewhere that of `z`. */
  lemma ChBit(x: Word, y: Word, z: Word, i: bv5)
    ensures Bit(Ch(x, y, z), i) <==> if Bit(x, i) then Bit(y, i) else Bit(z, i)
  {
    hide And, Xor, Not, Bit, Rotr, Right;
    AndBit(x, y, i);
    NotBit(x, i);
    AndBit(Not(x), z, i);
    XorBit(And(x, y), And(Not(x), z), i);
  }

  /** Maj has the bits that at least two of its arguments have. */
  lemma MajBit(x: Word, y: Word, z: Word, i: bv5)
    ensures Bit(Maj(x, y, z), i) <==>
            (Bit(x, i) && Bit(y, i)) || (Bit(x, i) && Bit(z, i)) || (Bit(y, i) && Bit(z, i))
  {
    hide And, Xor, Not, Bit, Rotr, Right;
    AndBit(x, y, i);
    AndBit(x, z, i);
    AndBit(y, z, i);
    XorBit(And(x, y), And(x, z), i);
    XorBit(Xor(And(x, y), And(x, z)), And(y, z), i);
  }

  lemma Around(n: Word, i: bv5)
    requires 0 < n < 32
    ensures i - ((32 - n) as bv5) == i + (n as bv5)
    ensures 32 - n <= (i as Word) <==> !((i as Word) + n < 32)
  {}

  /** Rotation to the right moves every bit `n` places, around the word. */
  lemma RotrBit(x: Word, n: Word, i: bv5)
    requires 0 < n < 32
    ensures Bit(Rotr(x, n), i) <==> Bit(x, i + (n as bv5))
  {
    hide Bit, Or, Right, Left;
    RightBit(x, n, i);
    LeftBit(x, 32 - n, i);
    OrBit(Right(x, n), Left(x, 32 - n), i);
    Around(n, i);
  }

  lemma Xor3Bit(x: Word, y: Word, z: Word, i: bv5)
    ensures Bit(Xor(Xor(x, y), z), i) <==> (Bit(x, i) != (Bit(y, i) != Bit(z, i)))
  {
    hide Bit, Xor;
    XorBit(x, y, i);
    XorBit(Xor(x, y), z, i);
  }

  /** The two functions of the rounds combine three rotations each. */
  lemma BigSigmaBits(x: Word, i: bv5)
    ensures Bit(BigSigma0(x), i) <==> (Bit(x, i + 2) != (Bit(x, i + 13) != Bit(x, i + 22)))
    ensures Bit(BigSigma1(x), i) <==> (Bit(x, i + 6) != (Bit(x, i + 11) != Bit(x, i + 25)))
  {
    hide And, Xor, Not, Bit, Rotr, Right;
    RotrBit(x, 2, i);
    RotrBit(x, 13, i);
    RotrBit(x, 22, i);
    Xor3Bit(Rotr(x, 2), Rotr(x, 13), Rotr(x, 22), i);
    RotrBit(x, 6, i);
    RotrBit(x, 11, i);
    RotrBit(x, 25, i);
    Xor3Bit(Rotr(x, 6), Rotr(x, 11), Rotr(x, 25), i);
  }

  /** The two functions of the schedule combine two rotations and a shift, which loses the lowest bits. */
  lemma SmallSigmaBits(x: Word, i: bv5)
    ensures Bit(SmallSigma0(x), i) <==> (Bit(x, i + 7) != (Bit(x, i + 18) != (i < 29 && Bit(x, i + 3))))
    ensures Bit(SmallSigma1(x), i) <==> (Bit(x, i + 17) != (Bit(x, i + 19) != (i < 22 && Bit(x, i + 10))))
  {
    hide And, Xor, Not, Bit, Rotr, Right;
    RotrBit(x, 7, i);
    RotrBit(x, 18, i);
    RightBit(x, 3, i);
    Xor3Bit(Rotr(x, 7), Rotr(x, 18), Right(x, 3), i);
    RotrBit(x, 17, i);
    RotrBit(x, 19, i);
    RightBit(x, 10, i);
    Xor3Bit(Rotr(x, 17), Rotr(x, 19), Right(x, 10), i);
  }
}
