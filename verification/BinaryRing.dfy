/**
 Polynomials over GF(2) with k coefficients, as k-bit numbers, multiplied modulo x^k plus the
 polynomial `r`: the arithmetic of GF(2^8) in the threshold signer and of GF(2^5) behind Bech32.
 */
module BinaryRing {
  import opened Bitwise

  /** Multiplication by x: the coefficient shifted out of the k bits is replaced by r. */
  function XTime(k: nat, r: nat, a: nat): nat
    requires k >= 1
  {
    if Bit(a, k - 1) then Xor(Low(Shl(a, 1), k), r) else Low(Shl(a, 1), k)
  }

  /** The product, by Horner's rule on the bits of `b`. */
  function Mul(k: nat, r: nat, a: nat, b: nat): nat
    requires k >= 1
    decreases b
  {
    if b == 0 then 0 else Xor(if b % 2 == 1 then a else 0, XTime(k, r, Mul(k, r, a, b / 2)))
  }

  // ---------- Multiplication by x ----------

  lemma XTimeBelow(k: nat, r: nat, a: nat)
    requires k >= 1 && r < Pow2(k)
    ensures XTime(k, r, a) < Pow2(k)
  {
    hide Low, Shl, Xor, Bit, Pow2;
    LowBound(Shl(a, 1), k);
    XorBelow(Low(Shl(a, 1), k), r, k);
  }

  lemma DoubleAdd(k: nat, a: nat, b: nat)
    ensures Low(Shl(Xor(a, b), 1), k) == Xor(Low(Shl(a, 1), k), Low(Shl(b, 1), k))
  {
    hide Low, Shl, Xor;
    XorShl(a, b, 1);
    XorLow(Shl(a, 1), Shl(b, 1), k);
  }

  lemma XTimeAdd(k: nat, r: nat, a: nat, b: nat)
    requires k >= 1
    ensures XTime(k, r, Xor(a, b)) == Xor(XTime(k, r, a), XTime(k, r, b))
  {
    hide Low, Shl, Xor, Bit;
    DoubleAdd(k, a, b);
    XorBit(a, b, k - 1);
    var da, db := Low(Shl(a, 1), k), Low(Shl(b, 1), k);
    XorAssociates(da, db, r);
    XorCommutes(db, r);
    XorAssociates(da, r, db);
    XorSwapsMiddle(da, r, db, r);
    XorSelf(r);
    XorZero(Xor(da, db));
  }

  lemma {:induction false} TopBit(a: nat, k: nat)
    requires a < Pow2(k + 1)
    ensures Bit(a, k) <==> a >= Pow2(k)
  {
    if k == 0 {
    } else {
      TopBit(a / 2, k - 1);
    }
  }

  /** Without overflow, multiplication by x is doubling. */
  lemma XTimeSmall(k: nat, r: nat, a: nat)
    requires k >= 1 && a < Pow2(k - 1)
    ensures XTime(k, r, a) == 2 * a && !Bit(a, k - 1)
  {
    hide Low, Bit;
    TopBit(a, k - 1);
    assert Shl(a, 1) == 2 * a;
    LowOfSmall(2 * a, k);
  }

  /** With overflow, the top bit is replaced by r. */
  lemma XTimeLarge(k: nat, r: nat, a: nat)
    requires k >= 1 && Pow2(k - 1) <= a < Pow2(k)
    ensures XTime(k, r, a) == Xor(2 * a - Pow2(k), r) && Bit(a, k - 1)
  {
    hide Low, Bit, Xor;
    TopBit(a, k - 1);
    var low := 2 * a - Pow2(k);
    assert Shl(a, 1) == 2 * a;
    ShlOfOne(k);
    JoinSplit(1, low, k);
  }

  lemma {:induction false} ShlOfOne(k: nat)
    ensures Shl(1, k) == Pow2(k)
  {
    if k == 0 {
    } else {
      ShlOfOne(k - 1);
    }
  }

  // ---------- Ring laws ----------

  lemma MulUnfold(k: nat, r: nat, a: nat, b: nat)
    requires k >= 1
    ensures Mul(k, r, a, b) == Xor(if b % 2 == 1 then a else 0, XTime(k, r, Mul(k, r, a, b / 2)))
  {
    hide Xor;
    if b == 0 {
      XTimeOfZero(k, r);
      XorZero(0);
    }
  }

  lemma XTimeOfZero(k: nat, r: nat)
    requires k >= 1
    ensures XTime(k, r, 0) == 0
  {
    hide Low, Bit, Shl;
    NoBitsInZero(k - 1);
    ShlZero(0, 1);
    LowOfSmall(0, k);
  }

  lemma {:induction false} MulBelow(k: nat, r: nat, a: nat, b: nat)
    requires k >= 1 && r < Pow2(k) && a < Pow2(k)
    ensures Mul(k, r, a, b) < Pow2(k)
    decreases b
  {
    hide Xor, XTime, Pow2;
    if b == 0 {
    } else {
      MulBelow(k, r, a, b / 2);
      XTimeBelow(k, r, Mul(k, r, a, b / 2));
      XorBelow(if b % 2 == 1 then a else 0, XTime(k, r, Mul(k, r, a, b / 2)), k);
    }
  }

  lemma {:induction false} MulAddRight(k: nat, r: nat, a: nat, b: nat, c: nat)
    requires k >= 1
    ensures Mul(k, r, a, Xor(b, c)) == Xor(Mul(k, r, a, b), Mul(k, r, a, c))
    decreases b
  {
    hide XTime, Xor, Mul;
    if b == 0 {
      XorZero(c);
      MulByZero(k, r, a);
      XorZero(Mul(k, r, a, c));
    } else {
      MulUnfold(k, r, a, Xor(b, c));
      MulUnfold(k, r, a, b);
      MulUnfold(k, r, a, c);
      XorHalves(b, c);
      MulAddRight(k, r, a, b / 2, c / 2);
      XTimeAdd(k, r, Mul(k, r, a, b / 2), Mul(k, r, a, c / 2));
      XorSwapsMiddle(if b % 2 == 1 then a else 0, XTime(k, r, Mul(k, r, a, b / 2)),
                     if c % 2 == 1 then a else 0, XTime(k, r, Mul(k, r, a, c / 2)));
      XorSelf(a);
      XorZero(a);
      XorZero(0);
    }
  }

  lemma MulByZero(k: nat, r: nat, a: nat)
    requires k >= 1
    ensures Mul(k, r, a, 0) == 0
  {
  }

  lemma {:induction false} MulAddLeft(k: nat, r: nat, a: nat, b: nat, c: nat)
    requires k >= 1
    ensures Mul(k, r, Xor(a, b), c) == Xor(Mul(k, r, a, c), Mul(k, r, b, c))
    decreases c
  {
    hide XTime, Xor;
    XorZero(0);
    if c == 0 {
    } else {
      MulAddLeft(k, r, a, b, c / 2);
      XTimeAdd(k, r, Mul(k, r, a, c / 2), Mul(k, r, b, c / 2));
      XorSwapsMiddle(if c % 2 == 1 then a else 0, if c % 2 == 1 then b else 0,
                     XTime(k, r, Mul(k, r, a, c / 2)), XTime(k, r, Mul(k, r, b, c / 2)));
    }
  }

  lemma {:induction false} MulXTimeLeft(k: nat, r: nat, a: nat, b: nat)
    requires k >= 1
    ensures Mul(k, r, XTime(k, r, a), b) == XTime(k, r, Mul(k, r, a, b))
    decreases b
  {
    hide XTime, Xor;
    XTimeOfZero(k, r);
    if b == 0 {
    } else {
      MulXTimeLeft(k, r, a, b / 2);
      XTimeAdd(k, r, if b % 2 == 1 then a else 0, XTime(k, r, Mul(k, r, a, b / 2)));
    }
  }

  lemma MulOne(k: nat, r: nat, a: nat)
    requires k >= 1
    ensures Mul(k, r, a, 1) == a
  {
    hide XTime, Xor;
    assert Mul(k, r, a, 0) == 0;
    XTimeOfZero(k, r);
    XorZero(a);
  }

  lemma {:induction false} OneMul(k: nat, r: nat, a: nat)
    requires k >= 1 && a < Pow2(k)
    ensures Mul(k, r, 1, a) == a
    decreases a
  {
    hide XTime, Xor;
    if a == 0 {
    } else {
      OneMul(k, r, a / 2);
      XTimeSmall(k, r, a / 2);
      LastBitPlusRest(a);
    }
  }

  lemma {:induction false} MulZeroLeft(k: nat, r: nat, b: nat)
    requires k >= 1
    ensures Mul(k, r, 0, b) == 0
    decreases b
  {
    hide XTime, Xor;
    if b == 0 {
    } else {
      MulZeroLeft(k, r, b / 2);
      XTimeOfZero(k, r);
      XorZero(0);
    }
  }

  /** b = (b mod 2) + x * (b div 2) */
  lemma LastBitPlusRest(b: nat)
    ensures b == Xor(b % 2, 2 * (b / 2))
  {
    XorDisjoint(b / 2, b % 2, 1);
    XorCommutes(Shl(b / 2, 1), b % 2);
  }

  lemma {:induction false} MulCommutes(k: nat, r: nat, a: nat, b: nat)
    requires k >= 1 && a < Pow2(k) && b < Pow2(k)
    ensures Mul(k, r, a, b) == Mul(k, r, b, a)
    decreases b
  {
    hide XTime, Xor;
    if b == 0 {
      MulZeroLeft(k, r, a);
    } else {
      MulCommutes(k, r, a, b / 2);
      XTimeSmall(k, r, b / 2);
      LastBitPlusRest(b);
      MulAddLeft(k, r, b % 2, XTime(k, r, b / 2), a);
      MulXTimeLeft(k, r, b / 2, a);
      OneMul(k, r, a);
      MulZeroLeft(k, r, a);
    }
  }

  lemma {:induction false} MulAssociates(k: nat, r: nat, a: nat, b: nat, c: nat)
    requires k >= 1 && r < Pow2(k) && a < Pow2(k) && b < Pow2(k)
    ensures Mul(k, r, Mul(k, r, a, b), c) == Mul(k, r, a, Mul(k, r, b, c))
    decreases c
  {
    hide XTime, Xor, Pow2;
    if c == 0 {
    } else {
      var rest := Mul(k, r, b, c / 2);
      MulBelow(k, r, b, c / 2);
      XTimeBelow(k, r, rest);
      MulAssociates(k, r, a, b, c / 2);
      MulAddRight(k, r, a, if c % 2 == 1 then b else 0, XTime(k, r, rest));
      // a * (x * rest) == x * (a * rest)
      MulCommutes(k, r, a, XTime(k, r, rest));
      MulXTimeLeft(k, r, rest, a);
      MulCommutes(k, r, rest, a);
    }
  }
}
