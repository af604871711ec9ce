/**
 The field GF(2^10) = GF(2)[x] / (x^10 + x^8 + x^5 + x + 1), in which x has order 1023: the field over
 GF(32) that holds roots of the generator polynomial of Bech32.
 */
module Gf1024 {
  import opened Bitwise
  import Ring = BinaryRing
  import Field = BinaryField

  type element = x: nat | x < 1024

  const REDUCTION: element := 0x123

  lemma Pow2Ten()
    ensures Pow2(10) == 1024
  {
    assert Pow2(5) == 32;
  }

  function Add(a: element, b: element): element {
    hide Xor, Pow2;
    Pow2Ten();
    XorBelow(a, b, 10);
    Xor(a, b)
  }

  function Mul(a: element, b: element): element {
    hide Ring.Mul, Pow2;
    Pow2Ten();
    Ring.MulBelow(10, REDUCTION, a, b);
    Ring.Mul(10, REDUCTION, a, b)
  }

  /** The powers of x. */
  function Pow(i: nat): element {
    hide Field.Pow, Pow2;
    Pow2Ten();
    Field.PowBelow(10, REDUCTION, i);
    Field.Pow(10, REDUCTION, i)
  }

  // ---------- Elements as bits, for evaluating products of constants ----------

  datatype Bits = Bits(
    b9: bool, b8: bool, b7: bool, b6: bool, b5: bool, b4: bool, b3: bool, b2: bool, b1: bool, b0: bool)

  const O := false
  const I := true
  const ZERO := Bits(O, O, O, O, O, O, O, O, O, O)
  const ONE := Bits(O, O, O, O, O, O, O, O, O, I)

  /** The number n with one more bit. */
  function Shifted(n: nat, bit: bool): nat {
    2 * n + if bit then 1 else 0
  }

  function Upper(v: Bits): nat {
    Shifted(Shifted(Shifted(Shifted(Shifted(0, v.b9), v.b8), v.b7), v.b6), v.b5)
  }

  function Num(v: Bits): element {
    Shifted(Shifted(Shifted(Shifted(Shifted(Upper(v), v.b4), v.b3), v.b2), v.b1), v.b0)
  }

  lemma XorShifted(n: nat, a: bool, m: nat, b: bool)
    ensures Xor(Shifted(n, a), Shifted(m, b)) == Shifted(Xor(n, m), a != b)
  {
    hide Xor;
    XorStep(n, if a then 1 else 0, m, if b then 1 else 0);
  }

  function AddBits(v: Bits, w: Bits): Bits {
    Bits(v.b9 != w.b9, v.b8 != w.b8, v.b7 != w.b7, v.b6 != w.b6, v.b5 != w.b5,
         v.b4 != w.b4, v.b3 != w.b3, v.b2 != w.b2, v.b1 != w.b1, v.b0 != w.b0)
  }

  lemma AddUpper(v: Bits, w: Bits)
    ensures Xor(Upper(v), Upper(w)) == Upper(AddBits(v, w))
  {
    hide Xor, Shifted;
    XorZero(0);
    var (v9, w9) := (Shifted(0, v.b9), Shifted(0, w.b9));
    var (v8, w8) := (Shifted(v9, v.b8), Shifted(w9, w.b8));
    var (v7, w7) := (Shifted(v8, v.b7), Shifted(w8, w.b7));
    XorShifted(0, v.b9, 0, w.b9);
    XorShifted(v9, v.b8, w9, w.b8);
    XorShifted(v8, v.b7, w8, w.b7);
    XorShifted(v7, v.b6, w7, w.b6);
    XorShifted(Shifted(v7, v.b6), v.b5, Shifted(w7, w.b6), w.b5);
  }

  lemma AddOfBits(v: Bits, w: Bits)
    ensures Add(Num(v), Num(w)) == Num(AddBits(v, w))
  {
    hide Xor, Shifted, Upper;
    AddUpper(v, w);
    var (v4, w4) := (Shifted(Upper(v), v.b4), Shifted(Upper(w), w.b4));
    var (v3, w3) := (Shifted(v4, v.b3), Shifted(w4, w.b3));
    var (v2, w2) := (Shifted(v3, v.b2), Shifted(w3, w.b2));
    XorShifted(Upper(v), v.b4, Upper(w), w.b4);
    XorShifted(v4, v.b3, w4, w.b3);
    XorShifted(v3, v.b2, w3, w.b2);
    XorShifted(v2, v.b1, w2, w.b1);
    XorShifted(Shifted(v2, v.b1), v.b0, Shifted(w2, w.b1), w.b0);
  }

  /** Multiplication by x. */
  function Shift(v: Bits): Bits {
    Bits(v.b8, v.b7 != v.b9, v.b6, v.b5, v.b4 != v.b9, v.b3, v.b2, v.b1, v.b0 != v.b9, v.b9)
  }

  lemma SmallUpper(v: Bits)
    requires !v.b9
    ensures Upper(v) < 16
  {
  }

  lemma SmallNum(v: Bits)
    requires !v.b9
    ensures Num(v) < 512
  {
    hide Upper;
    SmallUpper(v);
  }

  lemma DoubledNum(v: Bits)
    requires !v.b9
    ensures Num(Shift(v)) == Shifted(Num(v), false)
  {
    hide Shifted;
    ShiftedNothing();
  }

  lemma ShiftedNothing()
    ensures Shifted(0, false) == 0
  {
  }

  lemma PowTwoNine()
    ensures Pow2(9) == 512
  {
    assert Pow2(4) == 16;
  }

  lemma ShiftSmall(v: Bits)
    requires !v.b9
    ensures Ring.XTime(10, REDUCTION, Num(v)) == Num(Shift(v))
  {
    hide Ring.XTime, Num, Shift, Pow2;
    PowTwoNine();
    SmallNum(v);
    DoubledNum(v);
    Ring.XTimeSmall(10, REDUCTION, Num(v));
  }

  lemma ShiftTop()
    ensures Ring.XTime(10, REDUCTION, 512) == REDUCTION
  {
    hide Ring.XTime, Xor, Pow2;
    PowTwoNine();
    Pow2Ten();
    Ring.XTimeLarge(10, REDUCTION, 512);
    XorZero(REDUCTION);
  }

  const TOP := Bits(I, O, O, O, O, O, O, O, O, O)
  const REDUCED := Bits(O, I, O, O, I, O, O, O, I, I)

  lemma TopAndRest(v: Bits)
    requires v.b9
    ensures AddBits(TOP, v.(b9 := false)) == v
    ensures AddBits(REDUCED, Shift(v.(b9 := false))) == Shift(v)
  {
  }

  lemma ShiftOfBits(v: Bits)
    ensures Ring.XTime(10, REDUCTION, Num(v)) == Num(Shift(v))
  {
    hide Ring.XTime, Xor, Num, AddBits, Shift;
    if !v.b9 {
      ShiftSmall(v);
    } else {
      var rest := v.(b9 := false);
      TopNumbers();
      TopAndRest(v);
      AddOfBits(TOP, rest);
      Ring.XTimeAdd(10, REDUCTION, Num(TOP), Num(rest));
      ShiftTop();
      ShiftSmall(rest);
      AddOfBits(REDUCED, Shift(rest));
    }
  }

  lemma TopNumbers()
    ensures Num(TOP) == 512 && Num(REDUCED) == REDUCTION
  {
  }

  function MulStep(a: Bits, bit: bool, product: Bits): Bits {
    if bit then AddBits(a, Shift(product)) else Shift(product)
  }

  /** The product, by Horner's rule on the bits of the second factor. */
  function Product(a: Bits, b: Bits): Bits {
    var p9 := if b.b9 then a else ZERO;
    var p5 := MulStep(a, b.b5, MulStep(a, b.b6, MulStep(a, b.b7, MulStep(a, b.b8, p9))));
    MulStep(a, b.b0, MulStep(a, b.b1, MulStep(a, b.b2, MulStep(a, b.b3, MulStep(a, b.b4, p5)))))
  }

  lemma MulStepOfBits(a: Bits, n: nat, bit: bool, product: Bits)
    requires Ring.Mul(10, REDUCTION, Num(a), n) == Num(product)
    ensures Ring.Mul(10, REDUCTION, Num(a), Shifted(n, bit)) == Num(MulStep(a, bit, product))
  {
    hide Ring.Mul, Ring.XTime, Xor, Num;
    Ring.MulUnfold(10, REDUCTION, Num(a), Shifted(n, bit));
    ShiftOfBits(product);
    XorZero(Num(Shift(product)));
    AddOfBits(a, Shift(product));
  }

  lemma ProductStart(a: Bits, bit: bool)
    ensures Ring.Mul(10, REDUCTION, Num(a), Shifted(0, bit)) == Num(if bit then a else ZERO)
  {
    hide Ring.Mul;
    Ring.MulByZero(10, REDUCTION, Num(a));
    Ring.MulOne(10, REDUCTION, Num(a));
  }

  lemma ProductOfBits(a: Bits, b: Bits)
    ensures Mul(Num(a), Num(b)) == Num(Product(a, b))
  {
    hide Ring.Mul, Shifted, MulStep;
    var n9 := Shifted(0, b.b9);
    var n8 := Shifted(n9, b.b8);
    var n7 := Shifted(n8, b.b7);
    var n6 := Shifted(n7, b.b6);
    var n5 := Shifted(n6, b.b5);
    var p9 := if b.b9 then a else ZERO;
    var p8 := MulStep(a, b.b8, p9);
    var p7 := MulStep(a, b.b7, p8);
    var p6 := MulStep(a, b.b6, p7);
    var p5 := MulStep(a, b.b5, p6);
    ProductStart(a, b.b9);
    MulStepOfBits(a, n9, b.b8, p9);
    MulStepOfBits(a, n8, b.b7, p8);
    MulStepOfBits(a, n7, b.b6, p7);
    MulStepOfBits(a, n6, b.b5, p6);
    ProductLower(a, b, n5, p5);
  }

  lemma ProductLower(a: Bits, b: Bits, n5: nat, p5: Bits)
    requires Ring.Mul(10, REDUCTION, Num(a), n5) == Num(p5)
    ensures Ring.Mul(10, REDUCTION, Num(a),
                     Shifted(Shifted(Shifted(Shifted(Shifted(n5, b.b4), b.b3), b.b2), b.b1), b.b0))
         == Num(MulStep(a, b.b0, MulStep(a, b.b1, MulStep(a, b.b2, MulStep(a, b.b3, MulStep(a, b.b4, p5))))))
  {
    hide Ring.Mul, Shifted, MulStep, Num;
    var n4, p4 := Shifted(n5, b.b4), MulStep(a, b.b4, p5);
    var n3, p3 := Shifted(n4, b.b3), MulStep(a, b.b3, p4);
    var n2, p2 := Shifted(n3, b.b2), MulStep(a, b.b2, p3);
    var n1, p1 := Shifted(n2, b.b1), MulStep(a, b.b1, p2);
    MulStepOfBits(a, n5, b.b4, p5);
    MulStepOfBits(a, n4, b.b3, p4);
    MulStepOfBits(a, n3, b.b2, p3);
    MulStepOfBits(a, n2, b.b1, p2);
    MulStepOfBits(a, n1, b.b0, p1);
  }

  lemma NumInjective(v: Bits, w: Bits)
    requires Num(v) == Num(w)
    ensures v == w
  {
    hide Xor;
    AddOfBits(v, w);
    XorSelf(Num(v));
    ZeroBits(AddBits(v, w));
  }

  lemma ZeroBits(v: Bits)
    requires Num(v) == 0
    ensures v == ZERO
  {
  }

  // ---------- The order of x ----------

  const X1 := Bits(O, O, O, O, O, O, O, O, I, O)
  const X2 := Bits(O, O, O, O, O, O, O, I, O, O)
  const X4 := Bits(O, O, O, O, O, I, O, O, O, O)
  const X8 := Bits(O, I, O, O, O, O, O, O, O, O)
  const X16 := Bits(O, I, O, O, O, I, I, O, O, I)
  const X32 := Bits(O, O, O, I, O, I, I, O, O, O)
  const X64 := Bits(O, O, I, I, I, O, I, I, I, I)
  const X128 := Bits(I, I, O, I, O, O, O, I, I, O)
  const X256 := Bits(O, I, I, I, I, O, O, I, O, I)
  const X512 := Bits(I, O, O, O, O, I, I, O, I, I)
  const X24 := Bits(I, I, I, I, I, I, O, O, O, O)
  const X25 := Bits(I, O, I, I, O, O, O, O, I, I)
  const X26 := Bits(O, O, I, O, I, O, O, I, O, I)
  const X33 := Bits(O, O, I, O, I, I, O, O, O, O)
  const X80 := Bits(O, I, I, O, O, I, I, O, O, O)
  const X88 := Bits(O, O, I, I, I, O, I, I, O, I)
  const X92 := Bits(O, I, I, O, I, I, O, I, O, I)
  const X93 := Bits(I, I, O, I, I, O, I, O, I, O)
  const X320 := Bits(I, O, O, I, I, I, I, O, I, O)
  const X336 := Bits(I, O, I, I, O, O, O, O, I, O)
  const X340 := Bits(O, O, O, O, O, I, I, O, I, I)
  const X341 := Bits(O, O, O, O, I, I, O, I, I, O)

  lemma PowProduct(i: nat, v: Bits, j: nat, w: Bits, p: Bits)
    requires Pow(i) == Num(v) && Pow(j) == Num(w) && Product(v, w) == p
    ensures Pow(i + j) == Num(p)
  {
    hide Ring.Mul, Field.Pow, Num, Product, Pow2;
    Pow2Ten();
    Field.MulPow(10, REDUCTION, i, j);
    ProductOfBits(v, w);
  }

  lemma FirstPower()
    ensures Pow(1) == Num(X1) && Pow(1) == 2
  {
    hide Ring.XTime, Num, Pow2;
    PowTwoNine();
    Ring.XTimeSmall(10, REDUCTION, 1);
    assert Field.Pow(10, REDUCTION, 0) == 1;
    NumOfX();
  }

  lemma NumOfX()
    ensures Num(X1) == 2 && Num(ONE) == 1 && Num(ZERO) == 0
  {
  }

  lemma FirstSquares()
    ensures Pow(4) == Num(X4) && Pow(8) == Num(X8) && Pow(16) == Num(X16) && Pow(32) == Num(X32)
  {
    hide Pow, Num;
    FirstPower();
    PowProduct(1, X1, 1, X1, X2);
    PowProduct(2, X2, 2, X2, X4);
    PowProduct(4, X4, 4, X4, X8);
    PowProduct(8, X8, 8, X8, X16);
    PowProduct(16, X16, 16, X16, X32);
  }

  /** The tenth square is x again. */
  lemma LastSquares()
    requires Pow(32) == Num(X32)
    ensures Pow(64) == Num(X64) && Pow(256) == Num(X256) && Pow(1024) == Num(X1)
  {
    hide Pow, Num;
    PowProduct(32, X32, 32, X32, X64);
    PowProduct(64, X64, 64, X64, X128);
    PowProduct(128, X128, 128, X128, X256);
    PowProduct(256, X256, 256, X256, X512);
    PowProduct(512, X512, 512, X512, X1);
  }

  lemma FullPower()
    ensures Pow(1023) == 1
  {
    hide Field.Pow, Num, Pow2;
    Pow2Ten();
    FirstPower();
    FirstSquares();
    LastSquares();
    Field.PowCancel(10, REDUCTION, 1, 1024);
  }

  lemma OtherPowers()
    ensures Pow(33) == Num(X33) && Pow(93) == Num(X93) && Pow(341) == Num(X341)
  {
    hide Pow, Num;
    FirstPower();
    FirstSquares();
    LastSquares();
    PowProduct(32, X32, 1, X1, X33);
    PowProduct(64, X64, 16, X16, X80);
    PowProduct(80, X80, 8, X8, X88);
    PowProduct(88, X88, 4, X4, X92);
    PowProduct(92, X92, 1, X1, X93);
    PowProduct(256, X256, 64, X64, X320);
    PowProduct(320, X320, 16, X16, X336);
    PowProduct(336, X336, 4, X4, X340);
    PowProduct(340, X340, 1, X1, X341);
  }

  lemma OtherPowersAreNotOne()
    ensures Pow(33) != 1 && Pow(93) != 1 && Pow(341) != 1
  {
    hide Pow, Num;
    OtherPowers();
    NumOfX();
    if Pow(33) == 1 {
      NumInjective(X33, ONE);
    }
    if Pow(93) == 1 {
      NumInjective(X93, ONE);
    }
    if Pow(341) == 1 {
      NumInjective(X341, ONE);
    }
  }

  lemma PowAdd(i: nat, j: nat)
    requires Pow(i) == 1
    ensures Pow(i + j) == Pow(j)
  {
    hide Ring.Mul, Field.Pow, Pow2;
    Pow2Ten();
    Field.MulPow(10, REDUCTION, i, j);
    Ring.OneMul(10, REDUCTION, Pow(j));
  }

  lemma {:induction false} PowMultiple(d: nat, m: nat)
    requires Pow(d) == 1
    ensures Pow(d * m) == 1
    decreases m
  {
    hide Pow;
    if m == 0 {
      PowOfNothing();
    } else {
      PowMultiple(d, m - 1);
      PowAdd(d * (m - 1), d);
      MulSucc(d, m);
    }
  }

  lemma PowOfNothing()
    ensures Pow(0) == 1
  {
  }

  lemma PowRemainder(d: nat, i: nat)
    requires d > 0 && Pow(d) == 1 && Pow(i) == 1
    ensures Pow(i % d) == 1
  {
    hide Pow;
    PowMultiple(d, i / d);
    PowAdd(d * (i / d), i % d);
  }

  lemma {:induction false} LeastOne(j: nat) returns (d: nat)
    requires j > 0 && Pow(j) == 1
    ensures 0 < d <= j && Pow(d) == 1 && forall i :: 0 < i < d ==> Pow(i) != 1
  {
    hide Pow;
    if i: nat :| 0 < i < j && Pow(i) == 1 {
      d := LeastOne(i);
    } else {
      d := j;
    }
  }

  lemma SmallDivisor(d: nat, q: nat)
    requires d * q == 1023 && d <= 31
    ensures d == 1 || d == 3 || d == 11 || d == 31
  {
  }

  lemma LargeProduct(d: nat, q: nat)
    requires d > 31 && q > 31
    ensures d * q > 1023
  {
    assert d * q == (d - 32) * q + 32 * q;
  }

  /** A proper divisor of 1023 = 3 * 11 * 31 divides 33, 93 or 341. */
  lemma ProperDivisor(d: nat, q: nat)
    requires d * q == 1023 && q > 1
    ensures d > 0 && (33 % d == 0 || 93 % d == 0 || 341 % d == 0)
  {
    if d <= 31 {
      SmallDivisor(d, q);
    } else {
      if q > 31 {
        LargeProduct(d, q);
      }
      SmallDivisor(q, d);
    }
  }

  lemma MultipleIsOne(d: nat, n: nat)
    requires d > 0 && n % d == 0 && Pow(d) == 1
    ensures Pow(n) == 1
  {
    hide Pow;
    PowMultiple(d, n / d);
  }

  lemma DivisorIsNotOne(d: nat, q: nat)
    requires d * q == 1023 && q > 1
    ensures Pow(d) != 1
  {
    hide Pow;
    ProperDivisor(d, q);
    OtherPowersAreNotOne();
    if Pow(d) == 1 {
      if 33 % d == 0 {
        MultipleIsOne(d, 33);
      } else if 93 % d == 0 {
        MultipleIsOne(d, 93);
      } else {
        MultipleIsOne(d, 341);
      }
    }
  }

  lemma QuotientOf(n: nat, d: nat)
    requires 0 < d < n && n % d == 0
    ensures d * (n / d) == n && n / d > 1
  {
  }

  /** x has order 1023. */
  lemma OrderOfX(j: nat)
    requires 1 <= j < 1023
    ensures Pow(j) != 1 && Pow(1023) == 1
  {
    hide Pow;
    FullPower();
    if Pow(j) == 1 {
      var d := LeastOne(j);
      PowRemainder(d, 1023);
      QuotientOf(1023, d);
      DivisorIsNotOne(d, 1023 / d);
    }
  }

  lemma XIsPrimitive()
    ensures Field.Primitive(10, REDUCTION)
  {
    hide Field.Pow, Pow2;
    Pow2Ten();
    FullPower();
    forall j: nat | 1 <= j < 1023
      ensures Field.Pow(10, REDUCTION, j) != 1
    {
      OrderOfX(j);
    }
  }

  // ---------- Laws ----------

  lemma NoZeroDivisors(a: element, b: element)
    ensures Mul(a, b) == 0 <==> a == 0 || b == 0
  {
    hide Ring.Mul, Field.Primitive, Pow2;
    Pow2Ten();
    XIsPrimitive();
    Field.NoZeroDivisors(10, REDUCTION, a, b);
  }

  lemma PowInjective(i: nat, j: nat)
    requires i < j < 1023
    ensures Pow(i) != Pow(j)
  {
    hide Field.Pow, Field.Primitive, Pow2;
    Pow2Ten();
    XIsPrimitive();
    Field.PowInjective(10, REDUCTION, i, j);
  }

  lemma MulCommutes(a: element, b: element)
    ensures Mul(a, b) == Mul(b, a)
  {
    hide Ring.Mul, Pow2;
    Pow2Ten();
    Ring.MulCommutes(10, REDUCTION, a, b);
  }

  lemma MulAssociates(a: element, b: element, c: element)
    ensures Mul(Mul(a, b), c) == Mul(a, Mul(b, c))
  {
    hide Ring.Mul, Pow2;
    Pow2Ten();
    Ring.MulAssociates(10, REDUCTION, a, b, c);
  }

  lemma MulAddLeft(a: element, b: element, c: element)
    ensures Mul(Add(a, b), c) == Add(Mul(a, c), Mul(b, c))
  {
    hide Ring.Mul, Xor;
    Ring.MulAddLeft(10, REDUCTION, a, b, c);
  }

  lemma MulAddRight(a: element, b: element, c: element)
    ensures Mul(a, Add(b, c)) == Add(Mul(a, b), Mul(a, c))
  {
    hide Ring.Mul, Xor;
    Ring.MulAddRight(10, REDUCTION, a, b, c);
  }
}
