/**
 The distance of the Bech32 code: its generator polynomial has three consecutive powers of x among its
 roots in GF(1024), so no two lists of at most 1023 symbols that differ in at most three of them have
 the same residue.
 */
module Bech32Distance {
  import opened Bech32
  import opened Bitwise
  import Code = Bech32Code
  import Field = BinaryField
  import opened Gf1024
  import Ring = BinaryRing

  // ---------- GF(32) inside GF(1024) ----------

  /** The element that the polynomial x of GF(32) becomes. */
  const THETA := Bits(O, O, O, O, O, O, I, I, I, O)

  /** The sum of the powers of THETA that the bits select. */
  function Selected(c4: bool, c3: bool, c2: bool, c1: bool, c0: bool): Bits {
    Bits(c3, c3, c4, c3 != c2, c4, (c4 != c3) != c2, (c4 != c3) != c1, (c4 != c2) != c1, c4 != c1, c4 != c0)
  }

  function EmbedBits(c: symbol): Bits {
    Selected(Bit(c, 4), Bit(c, 3), Bit(c, 2), Bit(c, 1), Bit(c, 0))
  }

  function Embed(c: symbol): element {
    Num(EmbedBits(c))
  }

  lemma SelectedSum(a4: bool, a3: bool, a2: bool, a1: bool, a0: bool, b4: bool, b3: bool, b2: bool, b1: bool, b0: bool)
    ensures AddBits(Selected(a4, a3, a2, a1, a0), Selected(b4, b3, b2, b1, b0))
         == Selected(a4 != b4, a3 != b3, a2 != b2, a1 != b1, a0 != b0)
  {
  }

  lemma EmbedSum(a: symbol, b: symbol)
    ensures Embed(Code.Sum(a, b)) == Add(Embed(a), Embed(b))
  {
    hide Xor, Bit, Num, Selected, AddBits;
    XorBit(a, b, 0);
    XorBit(a, b, 1);
    XorBit(a, b, 2);
    XorBit(a, b, 3);
    XorBit(a, b, 4);
    AddOfBits(EmbedBits(a), EmbedBits(b));
    SelectedSum(Bit(a, 4), Bit(a, 3), Bit(a, 2), Bit(a, 1), Bit(a, 0),
                Bit(b, 4), Bit(b, 3), Bit(b, 2), Bit(b, 1), Bit(b, 0));
  }

  lemma {:induction false} BitBelow(y: nat, n: nat, i: nat)
    requires i < n
    ensures Bit(y + Pow2(n), i) == Bit(y, i)
    decreases i
  {
    if i == 0 {
    } else {
      assert (y + Pow2(n)) / 2 == y / 2 + Pow2(n - 1);
      BitBelow(y / 2, n - 1, i - 1);
    }
  }

  lemma BitOfDouble(y: nat, i: nat)
    ensures !Bit(2 * y, 0) && Bit(2 * y, i + 1) == Bit(y, i)
  {
  }

  lemma DoubleBits(y: nat)
    ensures !Bit(2 * y, 0) && Bit(2 * y, 1) == Bit(y, 0) && Bit(2 * y, 2) == Bit(y, 1)
    ensures Bit(2 * y, 3) == Bit(y, 2) && Bit(2 * y, 4) == Bit(y, 3)
  {
    hide Bit;
    BitOfDouble(y, 0);
    BitOfDouble(y, 1);
    BitOfDouble(y, 2);
    BitOfDouble(y, 3);
  }

  lemma NineBits(y: nat)
    ensures Bit(Xor(y, 9), 0) == !Bit(y, 0) && Bit(Xor(y, 9), 1) == Bit(y, 1) && Bit(Xor(y, 9), 2) == Bit(y, 2)
    ensures Bit(Xor(y, 9), 3) == !Bit(y, 3) && Bit(Xor(y, 9), 4) == Bit(y, 4)
  {
    hide Xor;
    XorBit(y, 9, 0);
    XorBit(y, 9, 1);
    XorBit(y, 9, 2);
    XorBit(y, 9, 3);
    XorBit(y, 9, 4);
  }

  lemma FourAndFive()
    ensures Pow2(4) == 16 && Pow2(5) == 32
  {
  }

  lemma DoubledBits(a: symbol)
    ensures var t := Code.Times2(a);
            && Bit(t, 0) == Bit(a, 4) && Bit(t, 1) == Bit(a, 0) && Bit(t, 2) == Bit(a, 1)
            && Bit(t, 3) == (Bit(a, 2) != Bit(a, 4)) && Bit(t, 4) == Bit(a, 3)
  {
    hide Ring.XTime, Xor, Bit, Pow2;
    FourAndFive();
    if a < 16 {
      Ring.XTimeSmall(5, Code.REDUCTION, a);
      DoubleBits(a);
    } else {
      Ring.XTimeLarge(5, Code.REDUCTION, a);
      var y := a - 16;
      NineBits(2 * y);
      DoubleBits(y);
      BitBelow(y, 4, 0);
      BitBelow(y, 4, 1);
      BitBelow(y, 4, 2);
      BitBelow(y, 4, 3);
    }
  }

  lemma ThetaProduct(c4: bool, c3: bool, c2: bool, c1: bool, c0: bool)
    ensures Product(Selected(c4, c3, c2, c1, c0), THETA) == Selected(c3, c2 != c4, c1, c0, c4)
  {
  }

  lemma EmbedTimesX(a: symbol)
    ensures Embed(Code.Times2(a)) == Mul(Embed(a), Num(THETA))
  {
    hide Num, Bit, Code.Times2, Selected, Product, Mul;
    DoubledBits(a);
    ProductOfBits(EmbedBits(a), THETA);
    ThetaProduct(Bit(a, 4), Bit(a, 3), Bit(a, 2), Bit(a, 1), Bit(a, 0));
  }

  lemma EmbedSmall()
    ensures Embed(0) == 0 && Embed(1) == 1
  {
    NumOfX();
    assert EmbedBits(0) == ZERO && EmbedBits(1) == ONE;
  }

  lemma NoBitsNoSymbol(c: symbol)
    requires !Bit(c, 0) && !Bit(c, 1) && !Bit(c, 2) && !Bit(c, 3) && !Bit(c, 4)
    ensures c == 0
  {
    assert !Bit(c / 2, 0) && !Bit(c / 2 / 2, 0) && !Bit(c / 2 / 2 / 2, 0) && !Bit(c / 2 / 2 / 2 / 2, 0);
  }

  lemma EmbedZero(c: symbol)
    requires Embed(c) == 0
    ensures c == 0
  {
    hide Num, Bit;
    ZeroBits(EmbedBits(c));
    NoBitsNoSymbol(c);
  }

  lemma ZeroAndOne(a: element)
    ensures Mul(a, 0) == 0 && Mul(0, a) == 0 && Mul(a, 1) == a && Mul(1, a) == a
    ensures Add(a, 0) == a && Add(0, a) == a && Add(a, a) == 0
  {
    hide Ring.Mul, Xor, Pow2;
    Pow2Ten();
    Ring.MulByZero(10, REDUCTION, a);
    Ring.MulZeroLeft(10, REDUCTION, a);
    Ring.MulOne(10, REDUCTION, a);
    Ring.OneMul(10, REDUCTION, a);
    XorZero(a);
    XorSelf(a);
  }

  lemma SymbolUnfold(a: symbol, b: symbol)
    ensures b == Code.Sum(b % 2, Code.Times2(b / 2))
    ensures Code.Mul(a, b) == Code.Sum(if b % 2 == 1 then a else 0, Code.Times2(Code.Mul(a, b / 2)))
  {
    hide Ring.Mul, Ring.XTime, Xor;
    Ring.MulUnfold(5, Code.REDUCTION, a, b);
    assert Pow2(4) == 16;
    Ring.XTimeSmall(5, Code.REDUCTION, b / 2);
    Ring.LastBitPlusRest(b);
  }

  /** The embedding respects products. */
  lemma {:induction false} EmbedMul(a: symbol, b: symbol)
    ensures Embed(Code.Mul(a, b)) == Mul(Embed(a), Embed(b))
    decreases b
  {
    hide Code.Mul, Code.Sum, Code.Times2, Embed, Mul, Add;
    EmbedSmall();
    ZeroAndOne(Embed(a));
    if b == 0 {
      Code.MulZeroRight(a);
    } else {
      var half: symbol := b / 2;
      var bit: symbol := b % 2;
      SymbolUnfold(a, b);
      EmbedMul(a, half);
      EmbedSum(bit, Code.Times2(half));
      EmbedTimesX(half);
      MulAddRight(Embed(a), Embed(bit), Mul(Embed(half), Num(THETA)));
      MulAssociates(Embed(a), Embed(half), Num(THETA));
      EmbedSum(if bit == 1 then a else 0, Code.Times2(Code.Mul(a, half)));
      EmbedTimesX(Code.Mul(a, half));
    }
  }

  // ---------- Polynomials at a point ----------

  /** The value at b of the polynomial with these coefficients, the highest power first. */
  function Eval(v: seq<symbol>, b: element): element
    decreases |v|
  {
    if v == [] then 0 else Add(Mul(Eval(v[..|v| - 1], b), b), Embed(v[|v| - 1]))
  }

  lemma EvalAppend(v: seq<symbol>, c: symbol, b: element)
    ensures Eval(v + [c], b) == Add(Mul(Eval(v, b), b), Embed(c))
  {
    hide Add, Mul, Embed;
    assert (v + [c])[..|v|] == v;
  }

  lemma AddSwapsMiddle(a: element, b: element, c: element, d: element)
    ensures Add(Add(a, b), Add(c, d)) == Add(Add(a, c), Add(b, d))
  {
    hide Xor;
    XorSwapsMiddle(a, b, c, d);
  }

  lemma {:induction false} EvalPlus(v: seq<symbol>, w: seq<symbol>, b: element)
    requires |v| == |w|
    ensures Eval(Code.Plus(v, w), b) == Add(Eval(v, b), Eval(w, b))
    decreases |v|
  {
    hide Add, Mul, Embed, Code.Plus, Code.Sum;
    if v == [] {
      ZeroAndOne(0);
    } else {
      var n := |v| - 1;
      var v0, w0 := v[..n], w[..n];
      PlusSplits(v, w);
      EvalPlus(v0, w0, b);
      EvalAppend(Code.Plus(v0, w0), Code.Sum(v[n], w[n]), b);
      EmbedSum(v[n], w[n]);
      MulAddLeft(Eval(v0, b), Eval(w0, b), b);
      AddSwapsMiddle(Mul(Eval(v0, b), b), Mul(Eval(w0, b), b), Embed(v[n]), Embed(w[n]));
    }
  }

  lemma PlusSplits(v: seq<symbol>, w: seq<symbol>)
    requires |v| == |w| > 0
    ensures var n := |v| - 1;
            Code.Plus(v, w) == Code.Plus(v[..n], w[..n]) + [Code.Sum(v[n], w[n])]
  {
    hide Xor, Code.Plus;
    Code.PlusAt(v, w);
    Code.PlusAt(v[..|v| - 1], w[..|v| - 1]);
  }

  lemma {:induction false} EvalScale(c: symbol, v: seq<symbol>, b: element)
    ensures Eval(Code.Scale(c, v), b) == Mul(Embed(c), Eval(v, b))
    decreases |v|
  {
    hide Add, Mul, Embed, Code.Mul;
    if v == [] {
      ZeroAndOne(Embed(c));
    } else {
      var n := |v| - 1;
      EvalScale(c, v[..n], b);
      assert Code.Scale(c, v) == Code.Scale(c, v[..n]) + [Code.Mul(c, v[n])];
      EvalAppend(Code.Scale(c, v[..n]), Code.Mul(c, v[n]), b);
      EmbedMul(c, v[n]);
      MulAssociates(Embed(c), Eval(v[..n], b), b);
      MulAddRight(Embed(c), Mul(Eval(v[..n], b), b), Embed(v[n]));
    }
  }

  lemma {:induction false} EvalLeadingZeros(n: nat, v: seq<symbol>, b: element)
    ensures Eval(Code.Zeros(n) + v, b) == Eval(v, b)
    decreases |v|, n
  {
    hide Add, Mul, Embed;
    if v != [] {
      var m := |v| - 1;
      EvalLeadingZeros(n, v[..m], b);
      assert Code.Zeros(n) + v == (Code.Zeros(n) + v[..m]) + [v[m]];
      EvalAppend(Code.Zeros(n) + v[..m], v[m], b);
    } else if n != 0 {
      EvalLeadingZeros(n - 1, [], b);
      assert Code.Zeros(n) + [] == (Code.Zeros(n - 1) + []) + [0];
      EvalAppend(Code.Zeros(n - 1) + [], 0, b);
      ZeroAndOne(b);
      EmbedSmall();
      ZeroAndOne(0);
    }
  }

  /** Where the generator polynomial vanishes, all its multiples do. */
  lemma {:induction false} EvalMultiple(q: seq<symbol>, b: element)
    requires Eval(Code.G, b) == 0
    ensures Eval(Code.Times(q, Code.G), b) == 0
    decreases |q|
  {
    hide Add, Mul, Embed, Eval, Code.Plus, Code.Scale;
    ZeroAndOne(0);
    ZeroAndOne(b);
    EmbedSmall();
    if q == [] {
      EvalLeadingZeros(6, [], b);
      assert Code.Zeros(6) + [] == Code.Zeros(6);
      EvalNothing(b);
    } else {
      var n := |q| - 1;
      var shifted, added := Code.Times(q[..n], Code.G) + [0], Code.Zeros(n) + Code.Scale(q[n], Code.G);
      EvalMultiple(q[..n], b);
      EvalAppend(Code.Times(q[..n], Code.G), 0, b);
      EvalLeadingZeros(n, Code.Scale(q[n], Code.G), b);
      EvalScale(q[n], Code.G, b);
      ZeroAndOne(Embed(q[n]));
      EvalPlus(shifted, added, b);
    }
  }

  lemma EvalNothing(b: element)
    ensures Eval([], b) == 0
  {
  }

  /** A list with residue zero vanishes wherever the generator polynomial does. */
  lemma CodewordVanishes(d: seq<symbol>, b: element)
    requires Polymod(0, d) == 0 && Eval(Code.G, b) == 0
    ensures Eval(d, b) == 0
  {
    hide Polymod, Packed, Eval, Add, Code.Plus, Code.Times;
    var w := Code.Zeros(6) + d;
    PolymodAppend(0, Code.Zeros(6), d);
    Code.PolymodZeros(6);
    PolymodPacks(0, Code.Zeros(6), 0);
    Code.PolymodIsRemainder(w, Code.Zeros(6));
    var q :| Code.Divides(w, q, Code.Zeros(6));
    EvalMultiple(q, b);
    EvalPlus(Code.Times(q, Code.G), Code.Zeros(|q|) + Code.Zeros(6), b);
    EvalLeadingZeros(|q|, Code.Zeros(6), b);
    EvalLeadingZeros(6, [], b);
    assert Code.Zeros(6) + [] == Code.Zeros(6);
    EvalNothing(b);
    ZeroAndOne(0);
    EvalLeadingZeros(6, d, b);
  }

  // ---------- Three roots ----------

  const E18 := Bits(O, O, I, O, I, I, O, O, O, I)
  const E20 := Bits(O, O, I, I, I, O, I, O, I, I)
  const E21 := Bits(O, O, I, I, I, O, I, O, I, O)
  const E22 := Bits(O, O, I, I, I, O, O, I, O, I)
  const E29 := Bits(I, I, I, O, I, I, O, O, I, O)

  lemma EmbeddedGenerator()
    ensures EmbedBits(18) == E18 && EmbedBits(20) == E20 && EmbedBits(21) == E21
    ensures EmbedBits(22) == E22 && EmbedBits(29) == E29
  {
  }

  /** One step of Horner's rule on the generator polynomial, with the embedded coefficient e. */
  lemma RootStep(k: nat, c: symbol, e: Bits, b: Bits, p: Bits, q: Bits)
    requires k < 7 && Code.G[k] == c && EmbedBits(c) == e
    requires Eval(Code.G[..k], Num(b)) == Num(p) && AddBits(Product(p, b), e) == q
    ensures Eval(Code.G[..k + 1], Num(b)) == Num(q)
  {
    hide Eval, Num, Product, AddBits, EmbedBits, Add, Mul;
    EvalAppend(Code.G[..k], c, Num(b));
    assert Code.G[..k] + [c] == Code.G[..k + 1];
    ProductOfBits(p, b);
    AddOfBits(Product(p, b), EmbedBits(c));
  }

  lemma FirstStep(b: Bits)
    ensures Eval(Code.G[..1], Num(b)) == Num(ONE)
  {
    hide Num, Add, Mul, Embed;
    assert Code.G[..1] == [1] && [1][..0] == [];
    NumOfX();
    ZeroAndOne(Num(b));
    ZeroAndOne(1);
    EmbedSmall();
  }

  /** The intermediate values of Horner's rule on the generator polynomial, which ends at zero. */
  predicate HornerChain(b: Bits, p1: Bits, p2: Bits, p3: Bits, p4: Bits, p5: Bits) {
    && AddBits(Product(ONE, b), E29) == p1
    && AddBits(Product(p1, b), E22) == p2
    && AddBits(Product(p2, b), E20) == p3
    && AddBits(Product(p3, b), E21) == p4
    && AddBits(Product(p4, b), E29) == p5
    && AddBits(Product(p5, b), E18) == ZERO
  }

  lemma RootOfGenerator(b: Bits, p1: Bits, p2: Bits, p3: Bits, p4: Bits, p5: Bits)
    requires HornerChain(b, p1, p2, p3, p4, p5)
    ensures Eval(Code.G, Num(b)) == 0
  {
    hide Eval, Num, Product, AddBits, EmbedBits;
    EmbeddedGenerator();
    FirstStep(b);
    RootStep(1, 29, E29, b, ONE, p1);
    RootStep(2, 22, E22, b, p1, p2);
    RootStep(3, 20, E20, b, p2, p3);
    RootStep(4, 21, E21, b, p3, p4);
    RootStep(5, 29, E29, b, p4, p5);
    RootStep(6, 18, E18, b, p5, ZERO);
    NumOfX();
    assert Code.G[..7] == Code.G;
  }

  lemma Horner24() returns (p1: Bits, p2: Bits, p3: Bits, p4: Bits, p5: Bits)
    ensures HornerChain(X24, p1, p2, p3, p4, p5)
  {
    p1, p2 := Bits(O, O, O, I, O, O, O, O, I, O), Bits(I, O, O, O, I, I, O, O, O, O);
    p3, p4 := Bits(I, O, I, I, O, O, O, I, O, O), Bits(O, O, I, I, O, O, O, I, O, I);
    p5 := Bits(O, O, I, I, O, I, I, I, O, I);
  }

  lemma Root24()
    ensures Eval(Code.G, Num(X24)) == 0
  {
    hide Eval, Num, HornerChain;
    var p1, p2, p3, p4, p5 := Horner24();
    RootOfGenerator(X24, p1, p2, p3, p4, p5);
  }

  lemma Horner25() returns (p1: Bits, p2: Bits, p3: Bits, p4: Bits, p5: Bits)
    ensures HornerChain(X25, p1, p2, p3, p4, p5)
  {
    p1, p2 := Bits(O, I, O, I, I, I, O, O, O, I), Bits(I, O, I, O, I, O, O, I, I, I);
    p3, p4 := Bits(I, O, I, I, I, O, I, O, O, I), Bits(O, I, I, O, I, I, I, I, I, I);
    p5 := Bits(I, O, I, I, I, I, I, I, I, I);
  }

  lemma Root25()
    ensures Eval(Code.G, Num(X25)) == 0
  {
    hide Eval, Num, HornerChain;
    var p1, p2, p3, p4, p5 := Horner25();
    RootOfGenerator(X25, p1, p2, p3, p4, p5);
  }

  lemma Horner26() returns (p1: Bits, p2: Bits, p3: Bits, p4: Bits, p5: Bits)
    ensures HornerChain(X26, p1, p2, p3, p4, p5)
  {
    p1, p2 := Bits(I, I, O, O, O, I, O, I, I, I), Bits(O, O, O, O, I, O, I, O, O, O);
    p3, p4 := Bits(O, O, I, I, O, O, I, I, O, O), Bits(I, O, I, O, O, I, I, I, O, I);
    p5 := Bits(I, I, I, I, I, O, I, I, I, O);
  }

  lemma Root26()
    ensures Eval(Code.G, Num(X26)) == 0
  {
    hide Eval, Num, HornerChain;
    var p1, p2, p3, p4, p5 := Horner26();
    RootOfGenerator(X26, p1, p2, p3, p4, p5);
  }

  // ---------- Three errors ----------

  lemma AddZero(a: element, b: element)
    ensures Add(a, b) == 0 <==> a == b
    ensures Add(a, b) == Add(b, a)
  {
    hide Xor;
    XorZeroIffEqual(a, b);
    XorCommutes(a, b);
  }

  /** Three terms that vanish with weights 1 and with weights x, y, z: the first can be eliminated. */
  lemma Eliminate(a: element, b: element, c: element, x: element, y: element, z: element)
    requires Add(a, Add(b, c)) == 0
    requires Add(Mul(a, x), Add(Mul(b, y), Mul(c, z))) == 0
    ensures Add(Mul(b, Add(x, y)), Mul(c, Add(x, z))) == 0
  {
    hide Add, Mul;
    AddZero(a, Add(b, c));
    AddZero(Mul(a, x), Add(Mul(b, y), Mul(c, z)));
    MulAddLeft(b, c, x);
    MulAddRight(b, x, y);
    MulAddRight(c, x, z);
    AddSwapsMiddle(Mul(b, x), Mul(b, y), Mul(c, x), Mul(c, z));
    AddZero(Add(Mul(b, x), Mul(c, x)), Add(Mul(b, y), Mul(c, z)));
  }

  lemma TimesTwice(a: element, x: element, w: element)
    ensures Mul(Mul(a, x), w) == Mul(Mul(a, w), x)
  {
    hide Mul;
    MulAssociates(a, x, w);
    MulAssociates(a, w, x);
    MulCommutes(x, w);
  }

  /** The last of three terms that vanish with weights 1, x and x^2 is zero. */
  lemma LastVanishes(a: element, b: element, c: element, x: element, y: element, z: element)
    requires Add(a, Add(b, c)) == 0
    requires Add(Mul(a, x), Add(Mul(b, y), Mul(c, z))) == 0
    requires Add(Mul(Mul(a, x), x), Add(Mul(Mul(b, y), y), Mul(Mul(c, z), z))) == 0
    requires x != z && y != z
    ensures c == 0
  {
    hide Add, Mul;
    var b1, c1 := Mul(b, Add(x, y)), Mul(c, Add(x, z));
    Eliminate(a, b, c, x, y, z);
    Eliminate(Mul(a, x), Mul(b, y), Mul(c, z), x, y, z);
    TimesTwice(b, y, Add(x, y));
    TimesTwice(c, z, Add(x, z));
    AddZero(b1, c1);
    MulAddRight(c1, y, z);
    NoZeroDivisors(c1, Add(y, z));
    AddZero(y, z);
    NoZeroDivisors(c, Add(x, z));
    AddZero(x, z);
  }

  lemma Rotate(a: element, b: element, c: element)
    ensures Add(a, Add(b, c)) == Add(b, Add(c, a))
  {
    hide Xor;
    XorCommutes(a, Add(b, c));
    XorAssociates(b, c, a);
  }

  /** The Vandermonde argument for three terms with different weights. */
  lemma AllVanish(a: element, b: element, c: element, x: element, y: element, z: element)
    requires Add(a, Add(b, c)) == 0
    requires Add(Mul(a, x), Add(Mul(b, y), Mul(c, z))) == 0
    requires Add(Mul(Mul(a, x), x), Add(Mul(Mul(b, y), y), Mul(Mul(c, z), z))) == 0
    requires x != y && x != z && y != z
    ensures a == 0 && b == 0 && c == 0
  {
    hide Add, Mul;
    LastVanishes(a, b, c, x, y, z);
    Rotate(a, b, c);
    Rotate(Mul(a, x), Mul(b, y), Mul(c, z));
    Rotate(Mul(Mul(a, x), x), Mul(Mul(b, y), y), Mul(Mul(c, z), z));
    LastVanishes(b, c, a, y, z, x);
    Rotate(b, c, a);
    Rotate(Mul(b, y), Mul(c, z), Mul(a, x));
    Rotate(Mul(Mul(b, y), y), Mul(Mul(c, z), z), Mul(Mul(a, x), x));
    LastVanishes(c, a, b, z, x, y);
  }

  // ---------- Lists with three errors ----------

  /** b to the power m */
  function PowerOf(b: element, m: nat): element {
    if m == 0 then 1 else Mul(PowerOf(b, m - 1), b)
  }

  lemma {:induction false} PowerNonZero(b: element, m: nat)
    requires b != 0
    ensures PowerOf(b, m) != 0
  {
    hide Mul;
    if m == 0 {
    } else {
      PowerNonZero(b, m - 1);
      NoZeroDivisors(PowerOf(b, m - 1), b);
    }
  }

  lemma NextPower(m: nat)
    ensures Pow(m + 1) == Mul(Pow(m), Pow(1))
  {
    hide Ring.Mul, Pow2;
    Pow2Ten();
    Field.MulPow(10, REDUCTION, m, 1);
  }

  /** (b * x)^m == b^m * x^m */
  lemma {:induction false} PowerTimesX(b: element, m: nat)
    ensures PowerOf(Mul(b, Pow(1)), m) == Mul(PowerOf(b, m), Pow(m))
  {
    hide Mul, Pow;
    if m == 0 {
      PowOfNothing();
      ZeroAndOne(1);
    } else {
      PowerTimesX(b, m - 1);
      NextPower(m - 1);
      var p, q, x := PowerOf(b, m - 1), Pow(m - 1), Pow(1);
      MulAssociates(Mul(p, q), b, x);
      TimesTwice(p, q, b);
      MulAssociates(Mul(p, b), q, x);
    }
  }

  /** The list of length n with one symbol other than zero, at position i. */
  function Single(n: nat, i: nat, c: symbol): (r: seq<symbol>)
    requires i < n
    ensures |r| == n && forall p :: 0 <= p < n ==> r[p] == if p == i then c else 0
  {
    Code.Zeros(i) + [c] + Code.Zeros(n - 1 - i)
  }

  lemma {:induction false} EvalTrailingZeros(v: seq<symbol>, m: nat, b: element)
    ensures Eval(v + Code.Zeros(m), b) == Mul(Eval(v, b), PowerOf(b, m))
    decreases m
  {
    hide Add, Mul, Embed, Eval;
    if m == 0 {
      assert v + Code.Zeros(0) == v;
      ZeroAndOne(Eval(v, b));
    } else {
      EvalTrailingZeros(v, m - 1, b);
      assert v + Code.Zeros(m) == (v + Code.Zeros(m - 1)) + [0];
      EvalAppend(v + Code.Zeros(m - 1), 0, b);
      EmbedSmall();
      ZeroAndOne(Mul(Mul(Eval(v, b), PowerOf(b, m - 1)), b));
      MulAssociates(Eval(v, b), PowerOf(b, m - 1), b);
    }
  }

  lemma EvalSingle(n: nat, i: nat, c: symbol, b: element)
    requires i < n
    ensures Eval(Single(n, i, c), b) == Mul(Embed(c), PowerOf(b, n - 1 - i))
  {
    hide Add, Mul, Embed, Eval;
    EvalTrailingZeros(Code.Zeros(i) + [c], n - 1 - i, b);
    EvalLeadingZeros(i, [c], b);
    EvalAppend([], c, b);
    assert [] + [c] == [c];
    EvalNothing(b);
    ZeroAndOne(b);
    ZeroAndOne(Embed(c));
  }

  lemma ThreeSingles(d: seq<symbol>, i: nat, j: nat, k: nat)
    requires i < |d| && j < |d| && k < |d| && i != j && i != k && j != k
    requires forall p :: 0 <= p < |d| && p != i && p != j && p != k ==> d[p] == 0
    ensures var n := |d|;
            d == Code.Plus(Single(n, i, d[i]), Code.Plus(Single(n, j, d[j]), Single(n, k, d[k])))
  {
    hide Xor, Code.Plus;
    var n := |d|;
    var u, v, w := Single(n, i, d[i]), Single(n, j, d[j]), Single(n, k, d[k]);
    Code.PlusAt(v, w);
    Code.PlusAt(u, Code.Plus(v, w));
    forall p | 0 <= p < n
      ensures d[p] == Code.Plus(u, Code.Plus(v, w))[p]
    {
      XorZero(d[p]);
      XorZero(0);
    }
  }

  lemma EvalThree(d: seq<symbol>, i: nat, j: nat, k: nat, b: element)
    requires i < |d| && j < |d| && k < |d| && i != j && i != k && j != k
    requires forall p :: 0 <= p < |d| && p != i && p != j && p != k ==> d[p] == 0
    ensures var n := |d| - 1;
            Eval(d, b) == Add(Mul(Embed(d[i]), PowerOf(b, n - i)),
                              Add(Mul(Embed(d[j]), PowerOf(b, n - j)), Mul(Embed(d[k]), PowerOf(b, n - k))))
  {
    hide Add, Mul, Embed, Eval, Code.Plus, PowerOf;
    var n := |d|;
    ThreeSingles(d, i, j, k);
    EvalPlus(Single(n, j, d[j]), Single(n, k, d[k]), b);
    EvalPlus(Single(n, i, d[i]), Code.Plus(Single(n, j, d[j]), Single(n, k, d[k])), b);
    EvalSingle(n, i, d[i], b);
    EvalSingle(n, j, d[j], b);
    EvalSingle(n, k, d[k], b);
  }

  /** At the three roots b, b * x and b * x^2 a term gets the weights 1, X and X^2, where X is a power of x. */
  lemma TermWeights(e: element, b: element, m: nat)
    ensures var t := Mul(e, PowerOf(b, m));
            var b1 := Mul(b, Pow(1));
            && Mul(e, PowerOf(b1, m)) == Mul(t, Pow(m))
            && Mul(e, PowerOf(Mul(b1, Pow(1)), m)) == Mul(Mul(t, Pow(m)), Pow(m))
  {
    hide Mul, Pow, PowerOf;
    var b1 := Mul(b, Pow(1));
    PowerTimesX(b, m);
    PowerTimesX(b1, m);
    MulAssociates(e, PowerOf(b, m), Pow(m));
    MulAssociates(e, PowerOf(b1, m), Pow(m));
  }

  lemma ConsecutiveRoots()
    ensures var b := Num(X24);
            b == Pow(24) && b != 0 && Mul(b, Pow(1)) == Num(X25) && Mul(Mul(b, Pow(1)), Pow(1)) == Num(X26)
  {
    hide Mul, Num, Pow;
    FirstPower();
    FirstSquares();
    PowProduct(16, X16, 8, X8, X24);
    ProductOfBits(X24, X1);
    ProductOfBits(X25, X1);
    assert Product(X24, X1) == X25 && Product(X25, X1) == X26;
    if Num(X24) == 0 {
      ZeroBits(X24);
    }
  }

  lemma TermZero(c: symbol, b: element, m: nat)
    requires b != 0 && Mul(Embed(c), PowerOf(b, m)) == 0
    ensures c == 0
  {
    hide Mul, Embed, PowerOf;
    PowerNonZero(b, m);
    NoZeroDivisors(Embed(c), PowerOf(b, m));
    EmbedZero(c);
  }

  /** No list of up to 1023 symbols with residue zero has one, two or three symbols other than zero. */
  lemma LightCodewordIsZero(d: seq<symbol>, i: nat, j: nat, k: nat)
    requires |d| <= 1023 && Polymod(0, d) == 0
    requires i < |d| && j < |d| && k < |d| && i != j && i != k && j != k
    requires forall p :: 0 <= p < |d| && p != i && p != j && p != k ==> d[p] == 0
    ensures d[i] == 0 && d[j] == 0 && d[k] == 0
  {
    hide Polymod, Eval, Add, Mul, Num, Embed, Pow, PowerOf;
    var n, b := |d| - 1, Num(X24);
    ConsecutiveRoots();
    Root24();
    Root25();
    Root26();
    CodewordVanishes(d, b);
    CodewordVanishes(d, Num(X25));
    CodewordVanishes(d, Num(X26));
    EvalThree(d, i, j, k, b);
    EvalThree(d, i, j, k, Num(X25));
    EvalThree(d, i, j, k, Num(X26));
    TermWeights(Embed(d[i]), b, n - i);
    TermWeights(Embed(d[j]), b, n - j);
    TermWeights(Embed(d[k]), b, n - k);
    DifferentPowers(n - i, n - j);
    DifferentPowers(n - i, n - k);
    DifferentPowers(n - j, n - k);
    AllVanish(Mul(Embed(d[i]), PowerOf(b, n - i)), Mul(Embed(d[j]), PowerOf(b, n - j)),
              Mul(Embed(d[k]), PowerOf(b, n - k)), Pow(n - i), Pow(n - j), Pow(n - k));
    TermZero(d[i], b, n - i);
    TermZero(d[j], b, n - j);
    TermZero(d[k], b, n - k);
  }

  lemma DifferentPowers(i: nat, j: nat)
    requires i != j && i < 1023 && j < 1023
    ensures Pow(i) != Pow(j)
  {
    hide Pow;
    if i < j {
      PowInjective(i, j);
    } else {
      PowInjective(j, i);
    }
  }

  // ---------- Detection ----------

  /** The positions at which two lists differ. */
  ghost function Differing(v: seq<symbol>, w: seq<symbol>): set<nat>
    requires |v| == |w|
  {
    set p: nat | p < |v| && v[p] != w[p]
  }

  /** A position of the set, or any other one below n, that is neither i nor j; the set is then used up. */
  lemma NextPosition(errors: set<nat>, n: nat, i: nat, j: nat) returns (k: nat)
    requires n >= 3 && (forall p :: p in errors ==> p < n && p != i && p != j)
    ensures k < n && k != i && k != j && (errors != {} ==> k in errors)
  {
    if errors != {} {
      k :| k in errors;
    } else {
      k := if i != 0 && j != 0 then 0 else if i != 1 && j != 1 then 1 else 2;
    }
  }

  /** Up to three positions below n are among three different ones. */
  lemma ThreePositions(errors: set<nat>, n: nat) returns (i: nat, j: nat, k: nat)
    requires |errors| <= 3 <= n && forall p :: p in errors ==> p < n
    ensures i < n && j < n && k < n && i != j && i != k && j != k
    ensures errors <= {i, j, k}
  {
    i := NextPosition(errors, n, n, n);
    var two := errors - {i};
    j := NextPosition(two, n, i, n);
    var one := two - {j};
    k := NextPosition(one, n, i, j);
    assert |one| <= 1;
    assert |one - {k}| == 0;
    assert one <= {k};
  }

  lemma SumAt(v: seq<symbol>, w: seq<symbol>)
    requires |v| == |w|
    ensures forall p :: 0 <= p < |v| ==> (Code.Plus(v, w)[p] == 0 <==> v[p] == w[p])
  {
    hide Xor, Code.Plus;
    Code.PlusAt(v, w);
    forall p | 0 <= p < |v|
      ensures Code.Plus(v, w)[p] == 0 <==> v[p] == w[p]
    {
      XorZeroIffEqual(v[p], w[p]);
    }
  }

  lemma SumResidue(chk: nat, v: seq<symbol>, w: seq<symbol>)
    requires |v| == |w| && Polymod(chk, v) == Polymod(chk, w)
    ensures Polymod(0, Code.Plus(v, w)) == 0
  {
    hide Polymod, Xor, Difference;
    PolymodLinear(chk, chk, v, w);
    XorSelf(chk);
    XorSelf(Polymod(chk, v));
  }

  /**
   From any state, two different lists of the same length, at most 1023 symbols, that differ in at most
   three positions have different residues, however far apart the positions are.
   */
  lemma ThreeErrorsDetected(chk: nat, v: seq<symbol>, w: seq<symbol>)
    requires |v| == |w| <= 1023 && v != w && |Differing(v, w)| <= 3
    ensures Polymod(chk, v) != Polymod(chk, w)
  {
    hide Polymod, Code.Plus;
    if |v| <= 6 {
      BurstDetected(chk, [], v, w, []);
      assert [] + v + [] == v && [] + w + [] == w;
    } else if Polymod(chk, v) == Polymod(chk, w) {
      var i, j, k := ThreePositions(Differing(v, w), |v|);
      SumAt(v, w);
      SumResidue(chk, v, w);
      forall p: nat | p < |v| && p != i && p != j && p != k
        ensures Code.Plus(v, w)[p] == 0
      {
        assert p !in {i, j, k};
        assert p !in Differing(v, w);
      }
      LightCodewordIsZero(Code.Plus(v, w), i, j, k);
    }
  }

  /** Two different valid strings with the same prefix, length and variant differ in at least four symbols. */
  lemma ValidStringsAreFarApart(
      hrp: string, data: seq<symbol>, checksum: seq<symbol>, data': seq<symbol>, checksum': seq<symbol>, spec: Spec)
    requires ValidString(hrp, data, checksum, spec) && ValidString(hrp, data', checksum', spec)
    requires |data| == |data'| <= 1017 && |checksum| == |checksum'| == 6
    requires data != data' || checksum != checksum'
    ensures |Differing(data + checksum, data' + checksum')| >= 4
  {
    hide Polymod, HrpExpand, Differing;
    var e, v, w := HrpExpand(hrp), data + checksum, data' + checksum';
    assert v[..|data|] == data && v[|data|..] == checksum && w[..|data|] == data' && w[|data|..] == checksum';
    assert e + data + checksum == e + v && e + data' + checksum' == e + w;
    PolymodAppend(1, e, v);
    PolymodAppend(1, e, w);
    if |Differing(v, w)| <= 3 {
      ThreeErrorsDetected(Polymod(1, e), v, w);
    }
  }
}
