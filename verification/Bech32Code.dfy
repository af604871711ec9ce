/**
 The Bech32 checksum as a polynomial code: the residue is the remainder of the symbols, read as a
 polynomial over GF(32), modulo the generator polynomial of BIP 173, section "Checksum".
 */
module Bech32Code {
  import opened Bitwise
  import opened Bech32
  import Ring = BinaryRing

  /** GF(32) is GF(2)[x] modulo x^5 + x^3 + 1. */
  const REDUCTION: symbol := 9

  function Mul(a: symbol, b: symbol): symbol {
    hide Ring.Mul, Pow2;
    Pow2Values();
    Ring.MulBelow(5, REDUCTION, a, b);
    Ring.Mul(5, REDUCTION, a, b)
  }

  /** The generator polynomial, the coefficient of the highest power first. */
  const G: seq<symbol> := [1, 29, 22, 20, 21, 29, 18]

  /** The generator polynomial without its leading coefficient. */
  const TAIL: seq<symbol> := [29, 22, 20, 21, 29, 18]

  function Zeros(n: nat): (r: seq<symbol>)
    ensures |r| == n
  {
    seq(n, _ => 0)
  }

  function Scale(c: symbol, v: seq<symbol>): (r: seq<symbol>)
    ensures |r| == |v|
  {
    seq(|v|, i requires 0 <= i < |v| => Mul(c, v[i]))
  }

  /** The sum of two polynomials of the same length. */
  function Plus(v: seq<symbol>, w: seq<symbol>): (r: seq<symbol>)
    requires |v| == |w|
    ensures |r| == |v|
  {
    hide Difference;
    DifferenceIsSymbols(v, w);
    Difference(v, w)
  }

  /** The product of two polynomials: shift and add the multiples of the second. */
  function Times(q: seq<symbol>, g: seq<symbol>): (r: seq<symbol>)
    requires g != []
    ensures |r| == |q| + |g| - 1
    decreases |q|
  {
    if q == [] then Zeros(|g| - 1)
    else
      var n := |q| - 1;
      Plus(Times(q[..n], g) + [0], Zeros(n) + Scale(q[n], g))
  }

  // ---------- The constants ----------

  /** Multiplication by x written with the digits of the symbol, for evaluating it on constants. */
  function DoubledDigits(a: int): int {
    if a < 16 then 2 * a else if a / 4 % 2 == 1 then 2 * a - 39 else 2 * a - 23
  }

  lemma XorWithNine(h: nat, x3: nat, x2: nat, x1: nat)
    requires x1 < 2 && x2 < 2 && x3 < 2
    ensures Xor(2 * (2 * (2 * (2 * h + x3) + x2) + x1), 9) == 2 * (2 * (2 * (2 * h + 1 - x3) + x2) + x1) + 1
  {
    hide *;
    XorZero(h);
    XorStep(h, x3, 0, 1);
    XorStep(2 * h + x3, x2, 1, 0);
    XorStep(2 * (2 * h + x3) + x2, x1, 2, 0);
    XorStep(2 * (2 * (2 * h + x3) + x2) + x1, 0, 4, 1);
  }

  lemma Doubled(a: symbol)
    ensures Ring.XTime(5, REDUCTION, a) == DoubledDigits(a)
  {
    hide Ring.XTime, Xor;
    assert Pow2(4) == 16 && Pow2(5) == 32;
    if a < 16 {
      Ring.XTimeSmall(5, REDUCTION, a);
    } else {
      Ring.XTimeLarge(5, REDUCTION, a);
      XorWithNine((a - 16) / 8, a / 4 % 2, a / 2 % 2, a % 2);
      assert a / 2 == a / 4 * 2 + a / 2 % 2 && a / 4 == a / 8 * 2 + a / 4 % 2;
    }
  }

  /** The multiples of an element by 1, x, x^2, x^3 and x^4. */
  lemma Multiples(a: symbol, a1: symbol, a2: symbol, a3: symbol, a4: symbol)
    requires a1 == Ring.XTime(5, REDUCTION, a) && a2 == Ring.XTime(5, REDUCTION, a1)
    requires a3 == Ring.XTime(5, REDUCTION, a2) && a4 == Ring.XTime(5, REDUCTION, a3)
    ensures Mul(1, a) == a && Mul(2, a) == a1 && Mul(4, a) == a2 && Mul(8, a) == a3 && Mul(16, a) == a4
  {
    hide Ring.XTime, Ring.Mul, Xor, Pow2;
    Pow2Values();
    Ring.MulOne(5, REDUCTION, a);
    Ring.MulUnfold(5, REDUCTION, a, 2);
    Ring.MulUnfold(5, REDUCTION, a, 4);
    Ring.MulUnfold(5, REDUCTION, a, 8);
    Ring.MulUnfold(5, REDUCTION, a, 16);
    XorZero(a1);
    XorZero(a2);
    XorZero(a3);
    XorZero(a4);
    Ring.MulCommutes(5, REDUCTION, a, 1);
    Ring.MulCommutes(5, REDUCTION, a, 2);
    Ring.MulCommutes(5, REDUCTION, a, 4);
    Ring.MulCommutes(5, REDUCTION, a, 8);
    Ring.MulCommutes(5, REDUCTION, a, 16);
  }

  lemma MultiplesOf(a: symbol)
    ensures var a1 := DoubledDigits(a);
            var a2 := DoubledDigits(a1);
            var a3 := DoubledDigits(a2);
            Mul(1, a) == a && Mul(2, a) == a1 && Mul(4, a) == a2 && Mul(8, a) == a3 && Mul(16, a) == DoubledDigits(a3)
  {
    hide Mul, Ring.XTime, DoubledDigits;
    Doubled(a);
    var a1: symbol := Times2(a);
    Doubled(a1);
    var a2: symbol := Times2(a1);
    Doubled(a2);
    var a3: symbol := Times2(a2);
    Doubled(a3);
    Multiples(a, a1, a2, a3, Times2(a3));
  }

  function Times2(a: symbol): symbol {
    hide Ring.XTime, Pow2;
    Pow2Values();
    Ring.XTimeBelow(5, REDUCTION, a);
    Ring.XTime(5, REDUCTION, a)
  }

  lemma TailMultiples()
    ensures Scale(1, TAIL) == [29, 22, 20, 21, 29, 18]
    ensures Scale(2, TAIL) == [19, 5, 1, 3, 19, 13]
    ensures Scale(4, TAIL) == [15, 10, 2, 6, 15, 26]
    ensures Scale(8, TAIL) == [30, 20, 4, 12, 30, 29]
    ensures Scale(16, TAIL) == [21, 1, 8, 24, 21, 19]
  {
    hide Mul;
    MultiplesOf(29);
    MultiplesOf(22);
    MultiplesOf(20);
    MultiplesOf(21);
    MultiplesOf(18);
  }

  lemma ShlFive(a: nat)
    ensures Shl(a, 5) == 32 * a
  {
    assert Shl(a, 1) == 2 * a;
    assert Shl(a, 2) == 4 * a;
    assert Shl(a, 3) == 8 * a;
    assert Shl(a, 4) == 16 * a;
  }

  lemma PackedSix(a: symbol, b: symbol, c: symbol, d: symbol, e: symbol, f: symbol)
    ensures Packed(0, [a, b, c, d, e, f]) == ((((a * 32 + b) * 32 + c) * 32 + d) * 32 + e) * 32 + f
  {
    hide Shl, Packed;
    ShlFive(0);
    PackedStep(0, a, [b, c, d, e, f]);
    assert [a] + [b, c, d, e, f] == [a, b, c, d, e, f];
    ShlFive(a);
    PackedStep(a, b, [c, d, e, f]);
    assert [b] + [c, d, e, f] == [b, c, d, e, f];
    ShlFive(a * 32 + b);
    PackedStep(a * 32 + b, c, [d, e, f]);
    assert [c] + [d, e, f] == [c, d, e, f];
    ShlFive((a * 32 + b) * 32 + c);
    PackedStep((a * 32 + b) * 32 + c, d, [e, f]);
    assert [d] + [e, f] == [d, e, f];
    ShlFive(((a * 32 + b) * 32 + c) * 32 + d);
    PackedStep(((a * 32 + b) * 32 + c) * 32 + d, e, [f]);
    assert [e] + [f] == [e, f];
    ShlFive((((a * 32 + b) * 32 + c) * 32 + d) * 32 + e);
    PackedStep((((a * 32 + b) * 32 + c) * 32 + d) * 32 + e, f, []);
    assert [f] + [] == [f];
    PackedNone(((((a * 32 + b) * 32 + c) * 32 + d) * 32 + e) * 32 + f);
  }

  /** The constants of the code are the multiples of the generator polynomial's tail. */
  lemma GeneratorRows(i: nat)
    requires i < 5
    ensures Pow2(i) < 32 && GENERATOR[i] == Packed(0, Scale(Pow2(i), TAIL))
  {
    hide Packed, Scale;
    assert Pow2(0) == 1 && Pow2(1) == 2 && Pow2(2) == 4 && Pow2(3) == 8 && Pow2(4) == 16;
    TailMultiples();
    PackedSix(29, 22, 20, 21, 29, 18);
    PackedSix(19, 5, 1, 3, 19, 13);
    PackedSix(15, 10, 2, 6, 15, 26);
    PackedSix(30, 20, 4, 12, 30, 29);
    PackedSix(21, 1, 8, 24, 21, 19);
  }

  // ---------- The feedback of a round ----------

  lemma {:induction false} DifferenceAt(v: seq<nat>, w: seq<nat>, i: nat)
    requires |v| == |w| && i < |v|
    ensures Difference(v, w)[i] == Xor(v[i], w[i])
    decreases |v|
  {
    hide Xor;
    if i == 0 {
    } else {
      DifferenceAt(v[1..], w[1..], i - 1);
    }
  }

  lemma PlusAt(v: seq<symbol>, w: seq<symbol>)
    requires |v| == |w|
    ensures forall i :: 0 <= i < |v| ==> Plus(v, w)[i] == Xor(v[i], w[i])
  {
    hide Xor, Difference;
    forall i | 0 <= i < |v|
      ensures Plus(v, w)[i] == Xor(v[i], w[i])
    {
      DifferenceAt(v, w, i);
    }
  }

  function Sum(a: symbol, b: symbol): symbol {
    hide Xor, Pow2;
    Pow2Values();
    XorBelow(a, b, 5);
    Xor(a, b)
  }

  lemma ScaleSum(a: symbol, b: symbol, v: seq<symbol>)
    ensures Scale(Sum(a, b), v) == Plus(Scale(a, v), Scale(b, v))
  {
    hide Xor, Mul, Plus;
    PlusAt(Scale(a, v), Scale(b, v));
    forall i | 0 <= i < |v|
      ensures Scale(Sum(a, b), v)[i] == Plus(Scale(a, v), Scale(b, v))[i]
    {
      MulAddLeft(a, b, v[i]);
    }
  }

  lemma MulAddLeft(a: symbol, b: symbol, c: symbol)
    ensures Mul(Sum(a, b), c) == Xor(Mul(a, c), Mul(b, c))
  {
    hide Xor, Ring.Mul;
    Ring.MulAddLeft(5, REDUCTION, a, b, c);
  }

  lemma MulAddRight(a: symbol, b: symbol, c: symbol)
    ensures Mul(a, Sum(b, c)) == Xor(Mul(a, b), Mul(a, c))
  {
    hide Xor, Ring.Mul;
    Ring.MulAddRight(5, REDUCTION, a, b, c);
  }

  lemma ScaleZero(v: seq<symbol>)
    ensures Scale(0, v) == Zeros(|v|)
  {
    hide Ring.Mul;
    forall i | 0 <= i < |v|
      ensures Mul(0, v[i]) == 0
    {
      Ring.MulZeroLeft(5, REDUCTION, v[i]);
    }
  }

  lemma PolymodZeros(n: nat)
    ensures Polymod(0, Zeros(n)) == 0
  {
    hide Polymod;
    ZerosFromZero(Zeros(n));
  }

  lemma PolymodPlus(v: seq<symbol>, w: seq<symbol>)
    requires |v| == |w|
    ensures Polymod(0, Plus(v, w)) == Xor(Polymod(0, v), Polymod(0, w))
  {
    hide Polymod, Xor, Difference;
    XorZero(0);
    PolymodLinear(0, 0, v, w);
  }

  lemma {:induction false} LowStep(c: nat, n: nat)
    ensures Low(c, n + 1) == Low(c, n) + (if Bit(c, n) then Pow2(n) else 0)
  {
    if n == 0 {
    } else {
      LowStep(c / 2, n - 1);
    }
  }

  /** One more bit, as an exclusive or. */
  lemma LowNext(c: nat, n: nat)
    ensures Low(c, n + 1) == Xor(Low(c, n), if Bit(c, n) then Pow2(n) else 0)
  {
    hide Low, Bit, Pow2, Xor, Shl;
    LowStep(c, n);
    LowBound(c, n);
    XorZero(Low(c, n));
    Ring.ShlOfOne(n);
    XorDisjoint(1, Low(c, n), n);
    XorCommutes(Pow2(n), Low(c, n));
  }

  /** What a symbol feeds back when it leaves the state is its multiple of the generator's tail. */
  lemma {:induction false} FeedbackIsMultiple(c: symbol, n: nat)
    requires n <= 5
    ensures Low(c, n) < 32 && Feedback(c, n) == Polymod(0, Scale(Low(c, n), TAIL))
    decreases n
  {
    hide Low, Bit, Xor, Polymod, Scale, Pow2, Packed, Plus;
    if n == 0 {
      LowNone(c);
      ScaleZero(TAIL);
      PolymodZeros(6);
    } else {
      var bit: symbol := if Bit(c, n - 1) then PowerSymbol(n - 1) else 0;
      FeedbackIsMultiple(c, n - 1);
      LowNext(c, n - 1);
      assert Low(c, n) == Sum(Low(c, n - 1), bit);
      ScaleSum(Low(c, n - 1), bit, TAIL);
      PolymodPlus(Scale(Low(c, n - 1), TAIL), Scale(bit, TAIL));
      if Bit(c, n - 1) {
        GeneratorRows(n - 1);
        PolymodPacks(0, Scale(Pow2(n - 1), TAIL), 0);
      } else {
        ScaleZero(TAIL);
        PolymodZeros(6);
      }
    }
  }

  function PowerSymbol(i: nat): symbol
    requires i < 5
  {
    hide Packed, Scale;
    GeneratorRows(i);
    Pow2(i)
  }

  lemma LowNone(c: nat)
    ensures Low(c, 0) == 0
  {
  }

  // ---------- Multiples of the generator polynomial ----------

  lemma {:induction false} ShlIsProduct(a: nat, k: nat)
    ensures Shl(a, k) == a * Pow2(k)
  {
    if k == 0 {
    } else {
      ShlIsProduct(a, k - 1);
    }
  }

  /** A symbol shifted through the empty state comes out as its feedback. */
  lemma ShiftedOut(c: symbol)
    ensures Polymod(c, Zeros(6)) == Feedback(c, 5)
  {
    hide Polymod, Packed, Shl, Shr, Low, Feedback, Xor, Pow2, Round;
    Pow2Values();
    assert Zeros(6) == Zeros(5) + [0] && Zeros(5) == [0, 0, 0, 0, 0];
    PolymodAppend(c, Zeros(5), [0]);
    PolymodPacks(c, Zeros(5), 1);
    PackedSix(c, 0, 0, 0, 0, 0);
    PackedStep(0, c, Zeros(5));
    assert [c] + Zeros(5) == [c, 0, 0, 0, 0, 0];
    ShlFive(0);
    ShlIsProduct(c, 25);
    PolymodOne(Shl(c, 25), 0);
    RoundOfTop(c);
  }

  lemma RoundOfTop(c: symbol)
    ensures Round(Shl(c, 25), 0) == Feedback(c, 5)
  {
    hide Shl, Shr, Low, Feedback, Xor, Pow2;
    Pow2Values();
    JoinSplit(c, 0, 25);
    ShlZero(0, 5);
    XorZero(0);
    XorZero(Feedback(c, 5));
  }

  lemma FeedbackOfSymbol(c: symbol)
    ensures Feedback(c, 5) == Polymod(0, Scale(c, TAIL))
  {
    hide Feedback, Polymod, Scale, Low, Pow2;
    FeedbackIsMultiple(c, 5);
    Pow2Values();
    LowOfSmall(c, 5);
  }

  lemma ScaleGenerator(c: symbol)
    ensures Scale(c, G) == [c] + Scale(c, TAIL)
  {
    hide Ring.Mul;
    Ring.MulOne(5, REDUCTION, c);
  }

  /** Every multiple of the generator polynomial by a symbol has residue zero. */
  lemma ScaledGeneratorVanishes(c: symbol)
    ensures Polymod(0, Scale(c, G)) == 0
  {
    hide Polymod, Scale, Feedback, Xor, Round, Difference;
    var t := Scale(c, TAIL);
    ScaleGenerator(c);
    PolymodAppend(0, [c], t);
    PolymodOne(0, c);
    RoundOfZero(c);
    PolymodLinear(c, 0, Zeros(6), t);
    DifferenceFromZeros(Zeros(6), t);
    XorZero(c);
    ShiftedOut(c);
    FeedbackOfSymbol(c);
    XorSelf(Feedback(c, 5));
  }

  lemma {:induction false} MultiplesVanish(q: seq<symbol>)
    ensures Polymod(0, Times(q, G)) == 0
    decreases |q|
  {
    hide Polymod, Scale, Plus, Xor, Round;
    if q == [] {
      PolymodZeros(6);
    } else {
      var n := |q| - 1;
      var shifted, added := Times(q[..n], G) + [0], Zeros(n) + Scale(q[n], G);
      MultiplesVanish(q[..n]);
      PolymodAppend(0, Times(q[..n], G), [0]);
      PolymodOne(0, 0);
      RoundOfZero(0);
      PolymodZeros(n);
      PolymodAppend(0, Zeros(n), Scale(q[n], G));
      ScaledGeneratorVanishes(q[n]);
      PolymodPlus(shifted, added);
      XorZero(0);
    }
  }

  // ---------- Division with remainder ----------

  /** w is q times the generator polynomial plus the remainder r. */
  predicate Divides(w: seq<symbol>, q: seq<symbol>, r: seq<symbol>) {
    |r| == 6 && |w| == |q| + 6 && w == Plus(Times(q, G), Zeros(|q|) + r)
  }

  lemma PlusZeros(v: seq<symbol>)
    ensures Plus(Zeros(|v|), v) == v
  {
    hide Xor, Plus;
    PlusAt(Zeros(|v|), v);
    forall i | 0 <= i < |v|
      ensures Plus(Zeros(|v|), v)[i] == v[i]
    {
      XorZero(v[i]);
    }
  }

  lemma DivisionStep(w0: seq<symbol>, v: symbol, q0: seq<symbol>, r0: seq<symbol>)
    requires Divides(w0, q0, r0)
    ensures Divides(w0 + [v], q0 + [r0[0]], Plus(r0[1..] + [v], Scale(r0[0], TAIL)))
  {
    hide Xor, Plus, Mul, Scale;
    var c, n := r0[0], |q0|;
    var q, r := q0 + [c], Plus(r0[1..] + [v], Scale(c, TAIL));
    assert q[..n] == q0 && q[n] == c;
    ScaleGenerator(c);
    var x, y, z := Times(q0, G) + [0], Zeros(n) + Scale(c, G), Zeros(n + 1) + r;
    assert Times(q, G) == Plus(x, y);
    PlusAt(x, y);
    PlusAt(Plus(x, y), z);
    PlusAt(Times(q0, G), Zeros(n) + r0);
    PlusAt(r0[1..] + [v], Scale(c, TAIL));
    forall i | 0 <= i < n + 7
      ensures (w0 + [v])[i] == Plus(Plus(x, y), z)[i]
    {
      StepAt(x, y, z, w0, v, q0, r0, i);
    }
    assert w0 + [v] == Plus(Plus(x, y), z);
  }

  lemma StepAt(
      x: seq<symbol>, y: seq<symbol>, z: seq<symbol>,
      w0: seq<symbol>, v: symbol, q0: seq<symbol>, r0: seq<symbol>, i: nat)
    requires Divides(w0, q0, r0) && i < |q0| + 7
    requires x == Times(q0, G) + [0] && y == Zeros(|q0|) + ([r0[0]] + Scale(r0[0], TAIL))
    requires z == Zeros(|q0| + 1) + Plus(r0[1..] + [v], Scale(r0[0], TAIL))
    ensures (w0 + [v])[i] == Xor(Xor(x[i], y[i]), z[i])
  {
    hide Xor, Plus, Mul, Scale, Times;
    var n, t, s := |q0|, Scale(r0[0], TAIL), r0[1..] + [v];
    PlusAt(Times(q0, G), Zeros(n) + r0);
    PlusAt(s, t);
    XorZero(x[i]);
    XorZero(Xor(x[i], y[i]));
    XorZero(v);
    if i > n {
      var j := i - n - 1;
      assert y[i] == t[j] && z[i] == Xor(s[j], t[j]);
      XorCommutes(s[j], t[j]);
      XorCancels(t[j], s[j]);
      XorAssociates(x[i], t[j], z[i]);
    }
  }

  lemma {:induction false} Division(w: seq<symbol>) returns (q: seq<symbol>, r: seq<symbol>)
    requires |w| >= 6
    ensures Divides(w, q, r)
    decreases |w|
  {
    hide Plus, Scale;
    if |w| == 6 {
      q, r := [], w;
      PlusZeros(w);
      assert Zeros(0) + w == w;
    } else {
      var n := |w| - 1;
      var q0, r0 := Division(w[..n]);
      DivisionStep(w[..n], w[n], q0, r0);
      q, r := q0 + [r0[0]], Plus(r0[1..] + [w[n]], Scale(r0[0], TAIL));
      assert w[..n] + [w[n]] == w;
    }
  }

  lemma ResidueOfQuotient(w: seq<symbol>, q: seq<symbol>, r: seq<symbol>)
    requires Divides(w, q, r)
    ensures Polymod(0, w) == Packed(0, r)
  {
    hide Polymod, Packed, Plus, Xor, Times;
    PolymodPlus(Times(q, G), Zeros(|q|) + r);
    MultiplesVanish(q);
    PolymodAppend(0, Zeros(|q|), r);
    PolymodZeros(|q|);
    PolymodPacks(0, r, 0);
    XorZero(Packed(0, r));
  }

  /**
   From the empty state the residue of a list of symbols is r, packed into 30 bits, if and only if r is
   the remainder of the list modulo the generator polynomial.
   */
  lemma PolymodIsRemainder(w: seq<symbol>, r: seq<symbol>)
    requires |w| >= 6 && |r| == 6
    ensures Polymod(0, w) == Packed(0, r) <==> exists q :: Divides(w, q, r)
  {
    hide Polymod, Packed, Divides;
    var q0, r0 := Division(w);
    ResidueOfQuotient(w, q0, r0);
    assert |r0| == 6 by {
      QuotientLengths(w, q0, r0);
    }
    if Polymod(0, w) == Packed(0, r) {
      PackedInjective(0, 0, r, r0);
    }
    if q :| Divides(w, q, r) {
      ResidueOfQuotient(w, q, r);
    }
  }

  lemma QuotientLengths(w: seq<symbol>, q: seq<symbol>, r: seq<symbol>)
    requires Divides(w, q, r)
    ensures |r| == 6 && |w| == |q| + 6
  {
  }

  // ---------- Scaling ----------

  lemma MulAssociates(a: symbol, b: symbol, c: symbol)
    ensures Mul(Mul(a, b), c) == Mul(a, Mul(b, c))
  {
    hide Ring.Mul, Pow2;
    Pow2Values();
    Ring.MulAssociates(5, REDUCTION, a, b, c);
  }

  lemma MulZeroRight(c: symbol)
    ensures Mul(c, 0) == 0
  {
    hide Ring.Mul;
    Ring.MulByZero(5, REDUCTION, c);
  }

  lemma ScalePlus(c: symbol, v: seq<symbol>, w: seq<symbol>)
    requires |v| == |w|
    ensures Scale(c, Plus(v, w)) == Plus(Scale(c, v), Scale(c, w))
  {
    hide Mul, Plus, Xor;
    PlusAt(v, w);
    PlusAt(Scale(c, v), Scale(c, w));
    forall i | 0 <= i < |v|
      ensures Mul(c, Plus(v, w)[i]) == Xor(Mul(c, v[i]), Mul(c, w[i]))
    {
      MulAddRight(c, v[i], w[i]);
    }
  }

  lemma ScaleZeros(c: symbol, n: nat)
    ensures Scale(c, Zeros(n)) == Zeros(n)
  {
    hide Mul;
    MulZeroRight(c);
  }

  lemma ScaleConcat(c: symbol, v: seq<symbol>, w: seq<symbol>)
    ensures Scale(c, v + w) == Scale(c, v) + Scale(c, w)
  {
    hide Mul;
  }

  lemma ScaleTwice(c: symbol, t: symbol, v: seq<symbol>)
    ensures Scale(c, Scale(t, v)) == Scale(Mul(c, t), v)
  {
    hide Mul;
    forall i | 0 <= i < |v|
      ensures Mul(c, Mul(t, v[i])) == Mul(Mul(c, t), v[i])
    {
      MulAssociates(c, t, v[i]);
    }
  }

  lemma {:induction false} ScaleTimes(c: symbol, q: seq<symbol>)
    ensures Scale(c, Times(q, G)) == Times(Scale(c, q), G)
    decreases |q|
  {
    hide Mul, Plus;
    if q == [] {
      ScaleZeros(c, 6);
    } else {
      var n := |q| - 1;
      var shifted, added := Times(q[..n], G) + [0], Zeros(n) + Scale(q[n], G);
      ScaleTimes(c, q[..n]);
      assert Scale(c, q)[..n] == Scale(c, q[..n]);
      ScalePlus(c, shifted, added);
      ScaleConcat(c, Times(q[..n], G), [0]);
      ScaleZeros(c, 1);
      assert [0] == Zeros(1);
      ScaleConcat(c, Zeros(n), Scale(q[n], G));
      ScaleZeros(c, n);
      ScaleTwice(c, q[n], G);
    }
  }

  lemma ScaleDivision(c: symbol, w: seq<symbol>, q: seq<symbol>, r: seq<symbol>)
    requires Divides(w, q, r)
    ensures Divides(Scale(c, w), Scale(c, q), Scale(c, r))
  {
    hide Scale, Plus, Times;
    ScalePlus(c, Times(q, G), Zeros(|q|) + r);
    ScaleTimes(c, q);
    ScaleConcat(c, Zeros(|q|), r);
    ScaleZeros(c, |q|);
  }

  /** Scaling the state and every symbol by a symbol scales the residue. */
  lemma PolymodScales(c: symbol, state: seq<symbol>, v: seq<symbol>, r: seq<symbol>)
    requires |state| == 6 && |r| == 6 && Polymod(Packed(0, state), v) == Packed(0, r)
    ensures Polymod(Packed(0, Scale(c, state)), Scale(c, v)) == Packed(0, Scale(c, r))
  {
    hide Polymod, Packed, Scale, Divides;
    PolymodPacks(0, state, 0);
    PolymodAppend(0, state, v);
    PolymodIsRemainder(state + v, r);
    var q :| Divides(state + v, q, r);
    ScaleDivision(c, state + v, q, r);
    ResidueOfQuotient(Scale(c, state + v), Scale(c, q), Scale(c, r));
    ScaleConcat(c, state, v);
    PolymodPacks(0, Scale(c, state), 0);
    PolymodAppend(0, Scale(c, state), Scale(c, v));
  }

  // ---------- Valid strings ----------

  /** The constant of each variant, as a polynomial. */
  function ConstantSymbols(spec: Spec): seq<symbol> {
    if spec == Bech32m then [21, 28, 16, 12, 5, 3] else [0, 0, 0, 0, 0, 1]
  }

  /** Characters that expand to symbols; BIP 173 allows only some of those below 128. */
  predicate Expandable(hrp: string) {
    forall c :: c in hrp ==> c as nat < 1024
  }

  /** The expansion: the high parts of all characters, a zero, the low parts of all characters. */
  lemma ExpansionMeaning(hrp: string, i: nat)
    requires i < |hrp|
    ensures var e, n := HrpExpand(hrp), |hrp|;
            && |e| == 2 * n + 1 && e[n] == 0 && e[n + 1 + i] < 32
            && 32 * e[i] + e[n + 1 + i] == hrp[i] as nat
  {
    hide Shr, Low, Shl;
    SplitJoin(hrp[i] as nat, 5);
    ShlFive(Shr(hrp[i] as nat, 5));
    LowBound(hrp[i] as nat, 5);
    Pow2Values();
  }

  lemma ExpansionIsSymbols(hrp: string)
    requires Expandable(hrp)
    ensures |HrpExpand(hrp)| == 2 * |hrp| + 1
    ensures forall k :: 0 <= k < |HrpExpand(hrp)| ==> HrpExpand(hrp)[k] < 32
  {
    hide Shr, Low;
    var e, n := HrpExpand(hrp), |hrp|;
    forall k | 0 <= k < |e|
      ensures e[k] < 32
    {
      if k < n {
        ExpansionMeaning(hrp, k);
        assert hrp[k] in hrp;
      } else if k > n {
        ExpansionMeaning(hrp, k - n - 1);
      }
    }
  }

  /** A string with a leading one, which stands for the initial state of the code. */
  function Codeword(hrp: string, data: seq<symbol>, checksum: seq<symbol>): seq<symbol>
    requires Expandable(hrp)
  {
    hide HrpExpand;
    ExpansionIsSymbols(hrp);
    var e: seq<symbol> := HrpExpand(hrp);
    [1] + (e + data + checksum)
  }

  /** A string is valid if and only if its remainder modulo the generator polynomial is the variant's constant. */
  lemma ValidIsRemainder(hrp: string, data: seq<symbol>, checksum: seq<symbol>, spec: Spec)
    requires Expandable(hrp) && |checksum| == 6
    ensures ValidString(hrp, data, checksum, spec) <==>
              exists q :: Divides(Codeword(hrp, data, checksum), q, ConstantSymbols(spec))
  {
    hide Polymod, Packed, Divides, HrpExpand, Round;
    ExpansionIsSymbols(hrp);
    var w := Codeword(hrp, data, checksum);
    PolymodAppend(0, [1], HrpExpand(hrp) + data + checksum);
    PolymodOne(0, 1);
    RoundOfZero(1);
    PackedSix(21, 28, 16, 12, 5, 3);
    PackedSix(0, 0, 0, 0, 0, 1);
    PolymodIsRemainder(w, ConstantSymbols(spec));
  }
}
