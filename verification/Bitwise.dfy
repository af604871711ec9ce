/**
 The bitwise operators of Go and Python on non-negative integers of any width, each defined by
 recursion on the bits, and the laws about them that the other modules need.
 */
module Bitwise {

  type byte = x: nat | x < 256

  function Pow2(k: nat): (p: nat)
    ensures p >= 1
  {
    if k == 0 then 1 else 2 * Pow2(k - 1)
  }

  lemma MulSucc(w: nat, n: nat)
    requires n >= 1
    ensures w * n == w * (n - 1) + w
  {
  }

  lemma BytePowers()
    ensures Pow2(7) == 128 && Pow2(8) == 256
  {
  }

  /** Bit number `i` of `a`, counted from the least significant one. */
  predicate Bit(a: nat, i: nat) {
    if i == 0 then a % 2 == 1 else Bit(a / 2, i - 1)
  }

  /** a << k */
  function Shl(a: nat, k: nat): nat {
    if k == 0 then a else 2 * Shl(a, k - 1)
  }

  /** a >> k */
  function Shr(a: nat, k: nat): nat {
    if k == 0 then a else Shr(a / 2, k - 1)
  }

  /** a & ((1 << k) - 1): the low k bits. */
  function Low(a: nat, k: nat): nat {
    if k == 0 then 0 else 2 * Low(a / 2, k - 1) + a % 2
  }

  /** a ^ b */
  function Xor(a: nat, b: nat): nat
    decreases a
  {
    if a == 0 then b else if b == 0 then a
    else 2 * Xor(a / 2, b / 2) + LastXor(a, b)
  }

  /** The last bit of a ^ b. */
  function LastXor(a: nat, b: nat): nat {
    if a % 2 == b % 2 then 0 else 1
  }

  /** a & b */
  function And(a: nat, b: nat): nat
    decreases a
  {
    if a == 0 || b == 0 then 0
    else 2 * And(a / 2, b / 2) + (if a % 2 == 1 && b % 2 == 1 then 1 else 0)
  }

  /** a | b */
  function Or(a: nat, b: nat): nat
    decreases a
  {
    if a == 0 then b else if b == 0 then a
    else 2 * Or(a / 2, b / 2) + (if a % 2 == 1 || b % 2 == 1 then 1 else 0)
  }

  // ---------- Exclusive or ----------

  lemma XorHalves(a: nat, b: nat)
    ensures Xor(a, b) == 2 * Xor(a / 2, b / 2) + LastXor(a, b)
    ensures Xor(a, b) / 2 == Xor(a / 2, b / 2) && Xor(a, b) % 2 == LastXor(a, b)
  {
  }

  lemma XorStep(a: nat, x: nat, b: nat, y: nat)
    requires x < 2 && y < 2
    ensures Xor(2 * a + x, 2 * b + y) == 2 * Xor(a, b) + (if x == y then 0 else 1)
  {
    XorHalves(2 * a + x, 2 * b + y);
    assert (2 * a + x) / 2 == a && (2 * b + y) / 2 == b;
  }

  lemma {:induction false} XorCommutes(a: nat, b: nat)
    ensures Xor(a, b) == Xor(b, a)
    decreases a
  {
    if a != 0 && b != 0 {
      XorCommutes(a / 2, b / 2);
    }
  }

  lemma {:induction false} XorAssociates(a: nat, b: nat, c: nat)
    ensures Xor(Xor(a, b), c) == Xor(a, Xor(b, c))
    decreases a
  {
    if a == 0 {
    } else {
      XorHalves(a, b);
      XorHalves(b, c);
      XorHalves(Xor(a, b), c);
      XorHalves(a, Xor(b, c));
      XorAssociates(a / 2, b / 2, c / 2);
    }
  }

  lemma {:induction false} XorSelf(a: nat)
    ensures Xor(a, a) == 0
  {
    if a == 0 {
    } else {
      XorSelf(a / 2);
    }
  }

  lemma XorZero(a: nat)
    ensures Xor(a, 0) == a && Xor(0, a) == a
  {
  }

  /** Adding the same value twice cancels. */
  lemma XorCancels(a: nat, b: nat)
    ensures Xor(a, Xor(a, b)) == b
    ensures Xor(Xor(b, a), a) == b
  {
    XorAssociates(a, a, b);
    XorAssociates(b, a, a);
    XorSelf(a);
  }

  lemma XorZeroIffEqual(a: nat, b: nat)
    ensures Xor(a, b) == 0 <==> a == b
  {
    XorCancels(a, b);
    XorSelf(a);
  }

  lemma XorSwapsMiddle(a: nat, b: nat, c: nat, d: nat)
    ensures Xor(Xor(a, b), Xor(c, d)) == Xor(Xor(a, c), Xor(b, d))
  {
    XorAssociates(a, b, Xor(c, d));
    XorAssociates(b, c, d);
    XorCommutes(b, c);
    XorAssociates(c, b, d);
    XorAssociates(a, c, Xor(b, d));
  }

  /** Exclusive or acts on the part above and the part below bit k independently. */
  lemma {:induction false} XorShr(a: nat, b: nat, k: nat)
    ensures Shr(Xor(a, b), k) == Xor(Shr(a, k), Shr(b, k))
  {
    if k == 0 {
    } else {
      XorHalves(a, b);
      XorShr(a / 2, b / 2, k - 1);
    }
  }

  lemma {:induction false} XorLow(a: nat, b: nat, k: nat)
    ensures Low(Xor(a, b), k) == Xor(Low(a, k), Low(b, k))
  {
    hide Xor;
    if k != 0 {
      XorHalves(a, b);
      XorLow(a / 2, b / 2, k - 1);
      XorStep(Low(a / 2, k - 1), a % 2, Low(b / 2, k - 1), b % 2);
    } else {
      XorZero(0);
    }
  }

  lemma LowHalves(a: nat, k: nat)
    requires k != 0
    ensures Low(a, k) / 2 == Low(a / 2, k - 1) && Low(a, k) % 2 == a % 2
  {
  }

  lemma {:induction false} XorShl(a: nat, b: nat, k: nat)
    ensures Shl(Xor(a, b), k) == Xor(Shl(a, k), Shl(b, k))
  {
    hide Xor;
    if k == 0 {
    } else {
      XorShl(a, b, k - 1);
      XorStep(Shl(a, k - 1), 0, Shl(b, k - 1), 0);
    }
  }

  lemma {:induction false} XorBit(a: nat, b: nat, i: nat)
    ensures Bit(Xor(a, b), i) <==> (Bit(a, i) != Bit(b, i))
  {
    XorHalves(a, b);
    if i == 0 {
    } else {
      XorBit(a / 2, b / 2, i - 1);
    }
  }

  lemma XorBelow(a: nat, b: nat, k: nat)
    requires a < Pow2(k) && b < Pow2(k)
    ensures Xor(a, b) < Pow2(k)
  {
    LowOfSmall(a, k);
    LowOfSmall(b, k);
    XorLow(a, b, k);
    LowBound(Xor(a, b), k);
  }

  lemma {:induction false} XorDisjoint(high: nat, low: nat, k: nat)
    requires low < Pow2(k)
    ensures Xor(Shl(high, k), low) == Shl(high, k) + low
  {
    if k == 0 {
    } else {
      XorDisjoint(high, low / 2, k - 1);
      XorHalves(Shl(high, k), low);
    }
  }

  lemma {:induction false} OrDisjoint(high: nat, low: nat, k: nat)
    requires low < Pow2(k)
    ensures Or(Shl(high, k), low) == Shl(high, k) + low
  {
    if k == 0 {
    } else {
      OrDisjoint(high, low / 2, k - 1);
    }
  }

  // ---------- Shifts and masks ----------

  lemma {:induction false} NoBitsInZero(i: nat)
    ensures !Bit(0, i)
  {
    if i == 0 {
    } else {
      NoBitsInZero(i - 1);
    }
  }

  lemma {:induction false} ShlZero(a: nat, k: nat)
    ensures Shl(a, k) == 0 <==> a == 0
  {
    if k == 0 {
    } else {
      ShlZero(a, k - 1);
    }
  }

  lemma {:induction false} LowBound(a: nat, k: nat)
    ensures Low(a, k) < Pow2(k)
  {
    if k == 0 {
    } else {
      LowBound(a / 2, k - 1);
    }
  }

  lemma {:induction false} LowOfSmall(a: nat, k: nat)
    requires a < Pow2(k)
    ensures Low(a, k) == a && Shr(a, k) == 0
  {
    if k == 0 {
    } else {
      LowOfSmall(a / 2, k - 1);
    }
  }

  /** Splitting at bit k and gluing the parts together again is the identity. */
  lemma {:induction false} SplitJoin(a: nat, k: nat)
    ensures a == Shl(Shr(a, k), k) + Low(a, k)
  {
    if k == 0 {
    } else {
      SplitJoin(a / 2, k - 1);
    }
  }

  lemma {:induction false} JoinSplit(high: nat, low: nat, k: nat)
    requires low < Pow2(k)
    ensures Shr(Shl(high, k) + low, k) == high && Low(Shl(high, k) + low, k) == low
  {
    if k == 0 {
    } else {
      var whole := Shl(high, k) + low;
      assert whole / 2 == Shl(high, k - 1) + low / 2 && whole % 2 == low % 2;
      JoinSplit(high, low / 2, k - 1);
    }
  }

  lemma {:induction false} ShlBelow(a: nat, j: nat, k: nat)
    requires a < Pow2(j)
    ensures Shl(a, k) <= Pow2(j + k) - Pow2(k)
  {
    if k == 0 {
    } else {
      ShlBelow(a, j, k - 1);
    }
  }
}
