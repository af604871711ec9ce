/**
 The field GF(2^8) = GF(2)[x] / (x^8 + x^4 + x^3 + x^2 + 1), a byte holding the coefficients of a
 polynomial of degree below 8.  `Mul` is the textbook shift-and-add product; the table arithmetic of
 the relayer is proved against it in module `Gf256Tables`.
 */
module Gf256 {
  import opened Bitwise
  import Ring = BinaryRing

  const REDUCTION: byte := 0x1d

  /** A byte shifted left by one; the bit that falls out of the byte is lost. */
  function Double(a: byte): byte {
    hide Low, Shl, Pow2;
    LowBound(Shl(a, 1), 8);
    BytePowers();
    Low(Shl(a, 1), 8)
  }

  /** Addition, and subtraction, of field elements. */
  function Add(a: byte, b: byte): byte {
    hide Xor, Pow2;
    BytePowers();
    XorBelow(a, b, 8);
    Xor(a, b)
  }

  /** Multiplication by the polynomial x, modulo 0x11d. */
  function XTime(a: byte): byte {
    hide Ring.XTime, Pow2;
    BytePowers();
    Ring.XTimeBelow(8, REDUCTION, a);
    Ring.XTime(8, REDUCTION, a)
  }

  /** The product of two field elements. */
  function Mul(a: byte, b: byte): byte {
    hide Ring.Mul, Pow2;
    BytePowers();
    Ring.MulBelow(8, REDUCTION, a, b);
    Ring.Mul(8, REDUCTION, a, b)
  }

  // ---------- Multiplication by x ----------

  lemma XTimeShifts(a: byte)
    ensures XTime(a) == if Bit(a, 7) then Add(Double(a), REDUCTION) else Double(a)
  {
    hide Low, Shl, Xor, Bit;
  }

  /** Without overflow, multiplication by x is doubling. */
  lemma XTimeSmall(a: byte)
    requires a < 128
    ensures XTime(a) == 2 * a && !Bit(a, 7)
  {
    hide Ring.XTime, Pow2;
    BytePowers();
    Ring.XTimeSmall(8, REDUCTION, a);
  }

  // ---------- Ring laws ----------

  lemma MulAddRight(a: byte, b: byte, c: byte)
    ensures Mul(a, Add(b, c)) == Add(Mul(a, b), Mul(a, c))
  {
    hide Ring.Mul, Xor;
    Ring.MulAddRight(8, REDUCTION, a, b, c);
  }

  lemma MulAddLeft(a: byte, b: byte, c: byte)
    ensures Mul(Add(a, b), c) == Add(Mul(a, c), Mul(b, c))
  {
    hide Ring.Mul, Xor;
    Ring.MulAddLeft(8, REDUCTION, a, b, c);
  }

  lemma MulXTimeLeft(a: byte, b: byte)
    ensures Mul(XTime(a), b) == XTime(Mul(a, b))
  {
    hide Ring.Mul, Ring.XTime;
    Ring.MulXTimeLeft(8, REDUCTION, a, b);
  }

  lemma MulOne(a: byte)
    ensures Mul(a, 1) == a
  {
    hide Ring.Mul;
    Ring.MulOne(8, REDUCTION, a);
  }

  lemma OneMul(a: byte)
    ensures Mul(1, a) == a
  {
    hide Ring.Mul, Pow2;
    BytePowers();
    Ring.OneMul(8, REDUCTION, a);
  }

  lemma MulZeroLeft(b: byte)
    ensures Mul(0, b) == 0
  {
    hide Ring.Mul;
    Ring.MulZeroLeft(8, REDUCTION, b);
  }

  lemma MulCommutes(a: byte, b: byte)
    ensures Mul(a, b) == Mul(b, a)
  {
    hide Ring.Mul, Pow2;
    BytePowers();
    Ring.MulCommutes(8, REDUCTION, a, b);
  }

  lemma MulAssociates(a: byte, b: byte, c: byte)
    ensures Mul(Mul(a, b), c) == Mul(a, Mul(b, c))
  {
    hide Ring.Mul, Pow2;
    BytePowers();
    Ring.MulAssociates(8, REDUCTION, a, b, c);
  }

  lemma ProductWithZero(a: byte, b: byte)
    requires a == 0 || b == 0
    ensures Mul(a, b) == 0
  {
    hide Ring.Mul;
    MulZeroLeft(b);
    Ring.MulByZero(8, REDUCTION, a);
  }
}
