/**
 Lagrange interpolation at zero over GF(2^8), as a function of the set of share indices, and the
 proof that it recovers the constant term of every polynomial of low enough degree.
 */
module Lagrange {
  import opened Bitwise
  import opened Gf256
  import opened Gf256Powers

  // ---------- Field arithmetic ----------

  lemma MulSwap(a: byte, b: byte, c: byte)
    ensures Mul(a, Mul(b, c)) == Mul(b, Mul(a, c))
  {
    hide *;
    MulAssociates(a, b, c);
    MulCommutes(a, b);
    MulAssociates(b, a, c);
  }

  lemma Cancel(a: byte, b: byte, c: byte)
    requires c != 0 && Mul(a, c) == Mul(b, c)
    ensures a == b
  {
    hide Mul, Xor, Pow;
    MulAddLeft(a, b, c);
    XorSelf(Mul(a, c));
    NoZeroDivisors(Add(a, b), c);
    XorZeroIffEqual(a, b);
  }

  lemma QuotientExists(p: byte, q: byte) returns (r: byte)
    requires q != 0
    ensures Mul(r, q) == p
  {
    hide *;
    if p == 0 {
      r := 0;
      MulZeroLeft(q);
    } else {
      var i := EveryByteIsAPower(p);
      var j := EveryByteIsAPower(q);
      var k := if j <= i then i - j else i + 255 - j;
      r := Pow(k);
      MulPow(k, q, j);
      PowPeriod(i);
    }
  }

  /** The field quotient p / q. */
  ghost function Quotient(p: byte, q: byte): (r: byte)
    requires q != 0
    ensures Mul(r, q) == p
  {
    hide *;
    assert exists r: byte :: Mul(r, q) == p by {
      var r := QuotientExists(p, q);
    }
    var r: byte :| Mul(r, q) == p;
    r
  }

  // ---------- Products and weights ----------

  ghost function Pick(s: set<byte>): (x: byte)
    requires s != {}
    ensures x in s
  {
    var x :| x in s;
    x
  }

  /** The product of x - a over all x in s; for a = 0, the product of the elements. */
  ghost function Product(s: set<byte>, a: byte): byte {
    if s == {} then 1
    else
      var x := Pick(s);
      Mul(Add(x, a), Product(s - {x}, a))
  }

  /** The factors may be multiplied in any order. */
  lemma {:induction false} ProductRemove(s: set<byte>, a: byte, x: byte)
    requires x in s
    ensures Product(s, a) == Mul(Add(x, a), Product(s - {x}, a))
    decreases s
  {
    hide Mul, Add, Xor;
    var y := Pick(s);
    if y != x {
      ProductRemove(s - {y}, a, x);
      assert s - {y} - {x} == s - {x} - {y};
      ProductRemove(s - {x}, a, y);
      MulSwap(Add(y, a), Add(x, a), Product(s - {x} - {y}, a));
    }
  }

  lemma {:induction false} ProductNonZero(s: set<byte>, a: byte)
    requires a !in s
    ensures Product(s, a) != 0
    decreases s
  {
    hide Mul, Xor, Pow;
    if s == {} {
    } else {
      var x := Pick(s);
      ProductNonZero(s - {x}, a);
      XorZeroIffEqual(x, a);
      NoZeroDivisors(Add(x, a), Product(s - {x}, a));
    }
  }

  /** The coefficient of share i: the product of xj / (xj - i) over the other shares. */
  ghost function Weight(s: set<byte>, i: byte): (w: byte)
    ensures Mul(w, Product(s - {i}, i)) == Product(s - {i}, 0)
  {
    ProductNonZero(s - {i}, i);
    Quotient(Product(s - {i}, 0), Product(s - {i}, i))
  }

  /** The sum of weight times value over the shares in r, with weights taken over all of s. */
  ghost function WeightedSum(r: set<byte>, s: set<byte>, y: map<byte, byte>): byte
    requires r <= y.Keys
  {
    if r == {} then 0
    else
      var i := Pick(r);
      Add(Mul(Weight(s, i), y[i]), WeightedSum(r - {i}, s, y))
  }

  /** The value at zero of the polynomial through the points (i, y[i]) for i in s. */
  ghost function Interpolate(s: set<byte>, y: map<byte, byte>): byte
    requires s <= y.Keys
  {
    WeightedSum(s, s, y)
  }

  lemma AddSwap(a: byte, b: byte, c: byte)
    ensures Add(a, Add(b, c)) == Add(b, Add(a, c))
  {
    hide Xor;
    XorAssociates(a, b, c);
    XorCommutes(a, b);
    XorAssociates(b, a, c);
  }

  /** The terms may be added in any order. */
  lemma {:induction false} SumRemove(r: set<byte>, s: set<byte>, y: map<byte, byte>, i: byte)
    requires r <= y.Keys && i in r
    ensures WeightedSum(r, s, y) == Add(Mul(Weight(s, i), y[i]), WeightedSum(r - {i}, s, y))
    decreases r
  {
    hide Mul, Add, Xor, Weight;
    var k := Pick(r);
    if k != i {
      SumRemove(r - {k}, s, y, i);
      assert r - {k} - {i} == r - {i} - {k};
      SumRemove(r - {i}, s, y, k);
      AddSwap(Mul(Weight(s, k), y[k]), Mul(Weight(s, i), y[i]), WeightedSum(r - {i} - {k}, s, y));
    }
  }

  // ---------- Interpolation is linear ----------

  lemma {:induction false} SumAdd(
      r: set<byte>, s: set<byte>, y: map<byte, byte>, z: map<byte, byte>, t: map<byte, byte>)
    requires r <= y.Keys && r <= z.Keys && r <= t.Keys
    requires forall i :: i in r ==> t[i] == Add(y[i], z[i])
    ensures WeightedSum(r, s, t) == Add(WeightedSum(r, s, y), WeightedSum(r, s, z))
    decreases r
  {
    hide Mul, Xor, Weight;
    if r == {} {
      XorZero(0);
    } else {
      var i := Pick(r);
      SumAdd(r - {i}, s, y, z, t);
      MulAddRight(Weight(s, i), y[i], z[i]);
      XorSwapsMiddle(Mul(Weight(s, i), y[i]), Mul(Weight(s, i), z[i]),
                     WeightedSum(r - {i}, s, y), WeightedSum(r - {i}, s, z));
    }
  }

  lemma {:induction false} SumScale(r: set<byte>, s: set<byte>, c: byte, y: map<byte, byte>, t: map<byte, byte>)
    requires r <= y.Keys && r <= t.Keys
    requires forall i :: i in r ==> t[i] == Mul(c, y[i])
    ensures WeightedSum(r, s, t) == Mul(c, WeightedSum(r, s, y))
    decreases r
  {
    hide Mul, Add, Xor, Weight;
    if r == {} {
      ProductWithZero(c, 0);
    } else {
      var i := Pick(r);
      SumScale(r - {i}, s, c, y, t);
      MulSwap(Weight(s, i), c, y[i]);
      MulAddRight(c, Mul(Weight(s, i), y[i]), WeightedSum(r - {i}, s, y));
    }
  }

  /** Removing the point a turns its factor in the weight of i into the factor a. */
  lemma WeightRemove(s: set<byte>, a: byte, i: byte)
    requires a in s && i in s && i != a
    ensures Mul(Weight(s, i), Add(i, a)) == Mul(a, Weight(s - {a}, i))
  {
    hide Mul, Xor, Weight, Product;
    var rest := s - {a} - {i};
    assert rest == s - {i} - {a};
    var w, w' := Weight(s, i), Weight(s - {a}, i);
    var n, d := Product(rest, 0), Product(rest, i);
    ProductRemove(s - {i}, 0, a);
    ProductRemove(s - {i}, i, a);
    XorZero(a);
    XorCommutes(i, a);
    // w * (i - a) * d == a * n == a * w' * d
    MulAssociates(w, Add(a, i), d);
    MulAssociates(a, w', d);
    ProductNonZero(rest, i);
    Cancel(Mul(w, Add(i, a)), Mul(a, w'), d);
  }

  /** Interpolating (x - a) * q is a times interpolating q on the other points. */
  lemma {:induction false} SumShift(r: set<byte>, s: set<byte>, a: byte, q: map<byte, byte>, y: map<byte, byte>)
    requires r <= s && s <= q.Keys && s <= y.Keys && a in s
    requires forall i :: i in r ==> y[i] == Mul(Add(i, a), q[i])
    ensures WeightedSum(r, s, y) == Mul(a, WeightedSum(r - {a}, s - {a}, q))
    decreases r
  {
    hide Mul, Add, Xor, Weight, WeightedSum;
    if r == {} {
      SumEmpty(s, y);
      SumEmpty(s - {a}, q);
      assert r - {a} == {};
      ProductWithZero(a, 0);
    } else {
      var i := Pick(r);
      SumRemove(r, s, y, i);
      SumShift(r - {i}, s, a, q, y);
      if i == a {
        assert r - {i} - {a} == r - {a};
        AddSelfZero(a);
        ProductWithZero(0, q[a]);
        ProductWithZero(Weight(s, a), 0);
        AddZero(WeightedSum(r - {i}, s, y));
      } else {
        assert r - {i} - {a} == r - {a} - {i};
        SumRemove(r - {a}, s - {a}, q, i);
        WeightRemove(s, a, i);
        MulAssociates(Weight(s, i), Add(i, a), q[i]);
        MulAssociates(a, Weight(s - {a}, i), q[i]);
        MulAddRight(a, Mul(Weight(s - {a}, i), q[i]), WeightedSum(r - {a} - {i}, s - {a}, q));
      }
    }
  }

  lemma SumEmpty(s: set<byte>, y: map<byte, byte>)
    ensures WeightedSum({}, s, y) == 0
  {
  }

  lemma AddSelfZero(a: byte)
    ensures Add(a, a) == 0
  {
    XorSelf(a);
  }

  lemma AddZero(a: byte)
    ensures Add(0, a) == a && Add(a, 0) == a
  {
    XorZero(a);
  }

  lemma InterpolateShift(s: set<byte>, a: byte, q: map<byte, byte>, y: map<byte, byte>)
    requires s <= q.Keys && s <= y.Keys && a in s
    requires forall i :: i in s ==> y[i] == Mul(Add(i, a), q[i])
    ensures Interpolate(s, y) == Mul(a, Interpolate(s - {a}, q))
  {
    hide Mul, Add, Xor, Weight, WeightedSum;
    SumShift(s, s, a, q, y);
  }

  // ---------- Constants ----------

  function Constant(s: set<byte>, c: byte): map<byte, byte> {
    map i | i in s :: c
  }

  /** The weights of any non-empty set of points add up to one. */
  lemma {:induction false} InterpolateOne(s: set<byte>)
    requires s != {}
    ensures Interpolate(s, Constant(s, 1)) == 1
    decreases s, 0
  {
    hide Mul, Add, Xor, Weight, WeightedSum, Interpolate;
    var a := Pick(s);
    if s == {a} {
      InterpolateSingleton(a);
    } else {
      var b := Pick(s - {a});
      assert a in s - {b};
      AddNonZero(a, b);
      var u := Quotient(1, Add(a, b));
      var ya := map i | i in s :: Mul(Add(i, a), u);
      var yb := map i | i in s :: Mul(Add(i, b), u);
      forall i | i in s
        ensures Constant(s, 1)[i] == Add(ya[i], yb[i])
      {
        MulAddLeft(Add(i, a), Add(i, b), u);
        AddDifferences(i, a, b);
        MulCommutes(u, Add(a, b));
      }
      InterpolateAdd(s, ya, yb, Constant(s, 1));
      InterpolateShift(s, a, Constant(s, u), ya);
      InterpolateShift(s, b, Constant(s, u), yb);
      InterpolateConstant(s - {a}, s, u);
      InterpolateConstant(s - {b}, s, u);
      MulAddLeft(a, b, u);
      MulCommutes(u, Add(a, b));
    }
  }

  /** A constant interpolates to itself. */
  lemma {:induction false} InterpolateConstant(s: set<byte>, t: set<byte>, c: byte)
    requires s != {} && s <= t
    ensures Interpolate(s, Constant(t, c)) == c
    decreases s, 1
  {
    hide Mul, Add, Xor, Weight, WeightedSum;
    InterpolateOne(s);
    MulOne(c);
    SumScale(s, s, c, Constant(s, 1), Constant(t, c));
  }

  lemma InterpolateSingleton(a: byte)
    ensures Interpolate({a}, Constant({a}, 1)) == 1
  {
    hide Mul, Xor;
    var y := Constant({a}, 1);
    SumRemove({a}, {a}, y, a);
    assert {a} - {a} == {};
    MulOne(Weight({a}, a));
    AddZero(1);
  }

  lemma InterpolateAdd(s: set<byte>, y: map<byte, byte>, z: map<byte, byte>, t: map<byte, byte>)
    requires s <= y.Keys && s <= z.Keys && s <= t.Keys
    requires forall i :: i in s ==> t[i] == Add(y[i], z[i])
    ensures Interpolate(s, t) == Add(Interpolate(s, y), Interpolate(s, z))
  {
    hide Mul, Add, Xor, Weight, WeightedSum;
    SumAdd(s, s, y, z, t);
  }

  lemma AddNonZero(a: byte, b: byte)
    ensures Add(a, b) != 0 <==> a != b
  {
    hide Xor;
    XorZeroIffEqual(a, b);
  }

  /** (i - a) - (i - b) == a - b */
  lemma AddDifferences(i: byte, a: byte, b: byte)
    ensures Add(Add(i, a), Add(i, b)) == Add(a, b)
  {
    hide Xor;
    XorSwapsMiddle(i, a, i, b);
    XorSelf(i);
    XorZero(Xor(a, b));
  }

  // ---------- Polynomials ----------

  /** The value at x of the polynomial with the given coefficients, the constant term first. */
  function Eval(p: seq<byte>, x: byte): byte {
    if p == [] then 0 else Add(p[0], Mul(x, Eval(p[1..], x)))
  }

  /** Synthetic division of p - p(a) by x - a. */
  function Divided(p: seq<byte>, a: byte): (q: seq<byte>)
    requires p != []
    ensures |q| == |p| - 1
  {
    if |p| == 1 then [] else [Eval(p[1..], a)] + Divided(p[1..], a)
  }

  /** p(x) == p(a) + (x - a) * q(x) */
  lemma {:induction false} DivisionIdentity(p: seq<byte>, a: byte, x: byte)
    requires p != []
    ensures Eval(p, x) == Add(Eval(p, a), Mul(Add(x, a), Eval(Divided(p, a), x)))
  {
    hide Mul, Add, Xor;
    var rest := p[1..];
    if |p| == 1 {
      ProductWithZero(x, 0);
      ProductWithZero(a, 0);
      ProductWithZero(Add(x, a), 0);
      AddZero(Add(p[0], 0));
    } else {
      DivisionIdentity(rest, a, x);
      var q := Divided(rest, a);
      assert Divided(p, a)[1..] == q;
      var r, e := Eval(rest, a), Eval(q, x);
      DivisionStep(p[0], a, x, r, e);
    }
  }

  /** c + x * (r + (x - a) * e) == (c + a * r) + (x - a) * (r + x * e) */
  lemma DivisionStep(c: byte, a: byte, x: byte, r: byte, e: byte)
    ensures Add(c, Mul(x, Add(r, Mul(Add(x, a), e)))) == Add(Add(c, Mul(a, r)), Mul(Add(x, a), Add(r, Mul(x, e))))
  {
    hide Mul, Xor;
    var d := Add(x, a);
    MulAddRight(x, r, Mul(d, e));
    MulAddRight(d, r, Mul(x, e));
    MulSwap(x, d, e);
    MulAddLeft(x, a, r);
    // both sides are c + x * r + x * d * e
    var t := Mul(x, Mul(d, e));
    XorAssociates(c, Mul(a, r), Add(Mul(d, r), t));
    XorAssociates(Mul(a, r), Mul(d, r), t);
    XorCommutes(Mul(x, r), Mul(a, r));
    XorCancels(Mul(a, r), Mul(x, r));
  }

  function Values(s: set<byte>, p: seq<byte>): map<byte, byte> {
    map x | x in s :: Eval(p, x)
  }

  lemma EvalAtZero(p: seq<byte>)
    requires p != []
    ensures Eval(p, 0) == p[0]
  {
    hide Mul, Add;
    ProductWithZero(0, Eval(p[1..], 0));
    AddZero(p[0]);
  }

  /**
   Lagrange's theorem at zero: through the values of a polynomial with no more coefficients than
   there are points, the interpolation is the value of the polynomial at zero.
   */
  lemma {:induction false} InterpolatePolynomial(s: set<byte>, t: set<byte>, p: seq<byte>)
    requires s != {} && s <= t && |p| <= |s|
    ensures Interpolate(s, Values(t, p)) == Eval(p, 0)
    decreases |p|
  {
    hide Mul, Add, Xor, Weight, WeightedSum, Interpolate, Eval;
    if |p| <= 1 {
      forall x | x in t
        ensures Values(t, p)[x] == Eval(p, 0)
      {
        ShortPolynomial(p, x);
      }
      assert Values(t, p) == Constant(t, Eval(p, 0));
      InterpolateConstant(s, t, Eval(p, 0));
    } else {
      var a := Pick(s);
      var q := Divided(p, a);
      var y, c := map x | x in t :: Mul(Add(x, a), Eval(q, x)), Constant(t, Eval(p, a));
      forall x | x in s
        ensures Values(t, p)[x] == Add(c[x], y[x])
      {
        DivisionIdentity(p, a, x);
      }
      InterpolateAdd(s, c, y, Values(t, p));
      InterpolateConstant(s, t, Eval(p, a));
      InterpolateShift(s, a, Values(t, q), y);
      assert |s - {a}| == |s| - 1;
      InterpolatePolynomial(s - {a}, t, q);
      DivisionIdentity(p, a, 0);
      AddZero(a);
    }
  }

  lemma ShortPolynomial(p: seq<byte>, x: byte)
    requires |p| <= 1
    ensures Eval(p, x) == Eval(p, 0)
  {
    hide Mul, Add;
    ProductWithZero(x, 0);
    ProductWithZero(0, 0);
  }
}
