/**
 The powers of x in GF(2)[x] modulo a polynomial of degree k.  When no power below the last possible one
 is 1, they are all non-zero elements, and the ring is a field.
 */
module BinaryField {
  import opened BinaryRing
  import opened Bitwise

  function Pow(k: nat, r: nat, i: nat): nat
    requires k >= 1
  {
    if i == 0 then 1 else XTime(k, r, Pow(k, r, i - 1))
  }

  /** x has order 2^k - 1, as many as there are non-zero elements. */
  ghost predicate Primitive(k: nat, r: nat)
    requires k >= 1
  {
    && r % 2 == 1 && r < Pow2(k)
    && Pow(k, r, Pow2(k) - 1) == 1
    && forall j: nat :: 1 <= j < Pow2(k) - 1 ==> Pow(k, r, j) != 1
  }

  lemma {:induction false} PowBelow(k: nat, r: nat, i: nat)
    requires k >= 1 && r < Pow2(k)
    ensures Pow(k, r, i) < Pow2(k)
  {
    hide XTime;
    if i == 0 {
    } else {
      PowBelow(k, r, i - 1);
      XTimeBelow(k, r, Pow(k, r, i - 1));
    }
  }

  lemma {:induction false} MulPow(k: nat, r: nat, i: nat, j: nat)
    requires k >= 1 && r < Pow2(k)
    ensures Mul(k, r, Pow(k, r, i), Pow(k, r, j)) == Pow(k, r, i + j)
    decreases i
  {
    hide XTime, Mul;
    if i == 0 {
      PowBelow(k, r, j);
      OneMul(k, r, Pow(k, r, j));
    } else {
      MulPow(k, r, i - 1, j);
      MulXTimeLeft(k, r, Pow(k, r, i - 1), Pow(k, r, j));
    }
  }

  // ---------- Multiplication by x loses nothing ----------

  lemma XTimeZero(k: nat, r: nat, a: nat)
    requires k >= 1 && r % 2 == 1 && r < Pow2(k) && a < Pow2(k) && XTime(k, r, a) == 0
    ensures a == 0
  {
    hide XTime, Xor;
    if a < Pow2(k - 1) {
      XTimeSmall(k, r, a);
    } else {
      XTimeLarge(k, r, a);
      XorZeroIffEqual(2 * a - Pow2(k), r);
    }
  }

  lemma XTimeInjective(k: nat, r: nat, a: nat, b: nat)
    requires k >= 1 && r % 2 == 1 && r < Pow2(k) && a < Pow2(k) && b < Pow2(k)
    requires XTime(k, r, a) == XTime(k, r, b)
    ensures a == b
  {
    hide XTime, Xor, Pow2;
    XTimeAdd(k, r, a, b);
    XorSelf(XTime(k, r, a));
    XorBelow(a, b, k);
    XTimeZero(k, r, Xor(a, b));
    XorZeroIffEqual(a, b);
  }

  lemma {:induction false} PowNonZero(k: nat, r: nat, i: nat)
    requires k >= 1 && r % 2 == 1 && r < Pow2(k)
    ensures Pow(k, r, i) != 0
  {
    hide XTime, Pow2;
    if i == 0 {
    } else {
      PowNonZero(k, r, i - 1);
      PowBelow(k, r, i - 1);
      if XTime(k, r, Pow(k, r, i - 1)) == 0 {
        XTimeZero(k, r, Pow(k, r, i - 1));
      }
    }
  }

  lemma {:induction false} PowCancel(k: nat, r: nat, i: nat, j: nat)
    requires k >= 1 && r % 2 == 1 && r < Pow2(k)
    requires i <= j && Pow(k, r, i) == Pow(k, r, j)
    ensures Pow(k, r, j - i) == 1
    decreases i
  {
    hide XTime, Pow2;
    if i == 0 {
    } else {
      PowBelow(k, r, i - 1);
      PowBelow(k, r, j - 1);
      XTimeInjective(k, r, Pow(k, r, i - 1), Pow(k, r, j - 1));
      PowCancel(k, r, i - 1, j - 1);
    }
  }

  // ---------- All non-zero elements are powers ----------

  lemma PowInjective(k: nat, r: nat, i: nat, j: nat)
    requires k >= 1 && Primitive(k, r)
    requires i < j < Pow2(k) - 1
    ensures Pow(k, r, i) != Pow(k, r, j)
  {
    hide Pow, Pow2;
    if Pow(k, r, i) == Pow(k, r, j) {
      PowCancel(k, r, i, j);
    }
  }

  ghost function PowersBelow(k: nat, r: nat, n: nat): set<int>
    requires k >= 1
  {
    set i: nat | i < n :: Pow(k, r, i)
  }

  lemma {:induction false} CountPowers(k: nat, r: nat, n: nat)
    requires k >= 1 && Primitive(k, r) && n < Pow2(k)
    ensures |PowersBelow(k, r, n)| == n
    decreases n
  {
    hide Pow, Pow2, Primitive;
    if n == 0 {
      assert PowersBelow(k, r, 0) == {};
    } else {
      CountPowers(k, r, n - 1);
      assert PowersBelow(k, r, n) == PowersBelow(k, r, n - 1) + {Pow(k, r, n - 1)};
      forall i: nat | i < n - 1
        ensures Pow(k, r, i) != Pow(k, r, n - 1)
      {
        PowInjective(k, r, i, n - 1);
      }
    }
  }

  ghost function UpTo(n: nat): (s: set<int>)
    ensures forall v :: v in s <==> 1 <= v <= n
  {
    if n == 0 then {} else UpTo(n - 1) + {n}
  }

  lemma {:induction false} CountUpTo(n: nat)
    ensures |UpTo(n)| == n
  {
    if n == 0 {
      assert UpTo(n) == {};
    } else {
      CountUpTo(n - 1);
      assert UpTo(n) == UpTo(n - 1) + {n};
    }
  }

  lemma SubsetOfSameSize(a: set<int>, b: set<int>)
    requires a <= b && |a| == |b|
    ensures a == b
  {
    assert b == a + (b - a);
  }

  /** Every non-zero element is a power of x, by counting. */
  lemma EveryElementIsAPower(k: nat, r: nat, v: nat) returns (i: nat)
    requires k >= 1 && Primitive(k, r) && 0 < v < Pow2(k)
    ensures i < Pow2(k) - 1 && Pow(k, r, i) == v
  {
    hide Pow, Pow2;
    var n := Pow2(k) - 1;
    CountPowers(k, r, n);
    CountUpTo(n);
    forall j: nat | j < n
      ensures 1 <= Pow(k, r, j) <= n
    {
      PowNonZero(k, r, j);
      PowBelow(k, r, j);
    }
    SubsetOfSameSize(PowersBelow(k, r, n), UpTo(n));
    assert v in UpTo(n);
    i :| i < n && Pow(k, r, i) == v;
  }

  /** A field has no zero divisors. */
  lemma NoZeroDivisors(k: nat, r: nat, a: nat, b: nat)
    requires k >= 1 && Primitive(k, r) && a < Pow2(k) && b < Pow2(k)
    ensures Mul(k, r, a, b) == 0 <==> a == 0 || b == 0
  {
    hide Pow, Pow2, Mul;
    if a == 0 {
      MulZeroLeft(k, r, b);
    } else if b == 0 {
      MulByZero(k, r, a);
    } else {
      var i := EveryElementIsAPower(k, r, a);
      var j := EveryElementIsAPower(k, r, b);
      MulPow(k, r, i, j);
      PowNonZero(k, r, i + j);
    }
  }
}
