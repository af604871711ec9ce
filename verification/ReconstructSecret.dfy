/** Reconstruction of a secret from Shamir shares: relayer/signer_horcrux.go. */
module Reconstruction {
  import opened Bitwise
  import opened Gf256
  import opened Gf256Powers
  import opened Gf256Tables
  import opened Lagrange

  type Shares = map<byte, seq<byte>>

  datatype Outcome =
    | Insufficient(got: nat)
    | Panicked
    | Secret(bytes: seq<byte>)

  /** Byte k of every share. */
  function Column(shares: Shares, k: nat): map<byte, byte>
    requires forall x :: x in shares ==> k < |shares[x]|
  {
    map x | x in shares :: shares[x][k]
  }

  /** The inner loop, over the other shares in any order. */
  method ComputeCoefficient(tables: Tables, keys: set<byte>, xi: byte) returns (coeff: byte)
    requires tables.Valid() && xi in keys
    ensures coeff == Weight(keys, xi)
  {
    hide Mul, Xor, Pow, Tables.Valid, Weight, Product;
    ProductEmpty(0);
    ProductEmpty(xi);
    var num: byte, denom: byte := 1, 1;
    var todo := keys;
    ghost var done := {};
    while todo != {}
      invariant todo <= keys && done == keys - todo - {xi}
      invariant num == Product(done, 0) && denom == Product(done, xi)
      decreases todo
    {
      var xj :| xj in todo;
      todo := todo - {xj};
      if xi == xj {
        continue;
      }
      ProductInsert(done, 0, xj);
      ProductInsert(done, xi, xj);
      XorZero(xj);
      done := done + {xj};
      num := tables.TableMul(num, xj);
      denom := tables.TableMul(denom, Add(xj, xi));
    }
    assert done == keys - {xi};
    ProductNonZero(done, xi);
    var quotient := tables.TableDiv(num, denom);
    coeff := quotient.value;
    Cancel(coeff, Weight(keys, xi), denom);
  }

  lemma ProductEmpty(a: byte)
    ensures Product({}, a) == 1
  {
  }

  lemma ProductInsert(s: set<byte>, a: byte, x: byte)
    requires x !in s
    ensures Product(s + {x}, a) == Mul(Product(s, a), Add(x, a))
  {
    hide Mul, Xor, Product;
    ProductRemove(s + {x}, a, x);
    assert s + {x} - {x} == s;
    MulCommutes(Add(x, a), Product(s, a));
  }

  /** The middle loop: one byte of the secret.  A share that is too short stops the program. */
  method ReconstructByte(tables: Tables, shares: Shares, k: nat) returns (ok: bool, sum: byte)
    requires tables.Valid()
    ensures ok <==> forall x :: x in shares ==> k < |shares[x]|
    ensures ok ==> sum == Interpolate(shares.Keys, Column(shares, k))
  {
    hide Mul, Xor, Pow, Tables.Valid, Weight, WeightedSum;
    ghost var long := map x | x in shares && k < |shares[x]| :: shares[x][k];
    SumEmpty(shares.Keys, long);
    sum := 0;
    var todo := shares.Keys;
    ghost var done := {};
    while todo != {}
      invariant todo <= shares.Keys && done == shares.Keys - todo
      invariant forall x :: x in done ==> k < |shares[x]|
      invariant sum == WeightedSum(done, shares.Keys, long)
      decreases todo
    {
      var xi :| xi in todo;
      todo := todo - {xi};
      var coeff := ComputeCoefficient(tables, shares.Keys, xi);
      if k >= |shares[xi]| {
        return false, 0;
      }
      SumInsert(done, shares.Keys, long, xi);
      done := done + {xi};
      sum := Add(sum, tables.TableMul(coeff, shares[xi][k]));
    }
    assert done == shares.Keys;
    assert long == Column(shares, k);
    ok := true;
  }

  lemma SumInsert(r: set<byte>, s: set<byte>, y: map<byte, byte>, i: byte)
    requires r <= y.Keys && i in y && i !in r
    ensures WeightedSum(r + {i}, s, y) == Add(WeightedSum(r, s, y), Mul(Weight(s, i), y[i]))
  {
    hide Mul, Xor, Weight, WeightedSum;
    SumRemove(r + {i}, s, y, i);
    assert r + {i} - {i} == r;
    XorCommutes(Mul(Weight(s, i), y[i]), WeightedSum(r, s, y));
  }

  /**
   ReconstructSecret.  The length of the secret is the length of whichever share the first iteration
   meets; the shares are visited in an arbitrary order in every loop.
   */
  method ReconstructSecret(tables: Tables, shares: Shares) returns (outcome: Outcome)
    requires tables.Valid()
    ensures |shares| < 2 ==> outcome == Insufficient(|shares|)
    ensures |shares| >= 2 ==> exists first :: first in shares && IsOutcome(shares, |shares[first]|, outcome)
  {
    hide Pow, Tables.Valid, Interpolate;
    if |shares| < 2 {
      return Insufficient(|shares|);
    }
    var first :| first in shares.Keys;
    var secretLen := |shares[first]|;
    var secret := new byte[secretLen](_ => 0);
    for byteIdx := 0 to secretLen
      invariant forall x :: x in shares ==> byteIdx <= |shares[x]| || byteIdx == 0
      invariant forall k :: 0 <= k < byteIdx ==>
                  (forall x :: x in shares ==> k < |shares[x]|) &&
                    secret[k] == Interpolate(shares.Keys, Column(shares, k))
    {
      var ok, sum := ReconstructByte(tables, shares, byteIdx);
      if !ok {
        return Panicked;
      }
      secret[byteIdx] := sum;
    }
    outcome := Secret(secret[..]);
  }

  /** What the reconstruction yields when the first share has length `len`. */
  ghost predicate IsOutcome(shares: Shares, len: nat, outcome: Outcome) {
    if forall x :: x in shares ==> len <= |shares[x]| then
      && outcome.Secret? && |outcome.bytes| == len
      && forall k :: 0 <= k < len ==> outcome.bytes[k] == Interpolate(shares.Keys, Column(shares, k))
    else outcome == Panicked
  }

  // ---------- What the outcome means ----------

  /** The shares are the values, byte by byte, of polynomials of degree below the number of shares. */
  ghost predicate SharesOf(shares: Shares, polynomials: seq<seq<byte>>) {
    && (forall k :: 0 <= k < |polynomials| ==> 1 <= |polynomials[k]| <= |shares|)
    && (forall x :: x in shares ==> |shares[x]| == |polynomials|)
    && (forall x, k :: x in shares && 0 <= k < |polynomials| ==> shares[x][k] == Eval(polynomials[k], x))
  }

  /**
   Any two or more shares of the right number reconstruct exactly the constant terms, whatever share
   is met first and in whatever order the loops run.
   */
  lemma SecretIsConstantTerms(shares: Shares, polynomials: seq<seq<byte>>, first: byte, outcome: Outcome)
    requires |shares| >= 2 && SharesOf(shares, polynomials)
    requires first in shares && IsOutcome(shares, |shares[first]|, outcome)
    ensures outcome == Secret(seq(|polynomials|, k requires 0 <= k < |polynomials| => polynomials[k][0]))
  {
    hide Eval, Interpolate;
    forall k | 0 <= k < |polynomials|
      ensures outcome.bytes[k] == polynomials[k][0]
    {
      assert Column(shares, k) == Values(shares.Keys, polynomials[k]);
      assert |shares.Keys| == |shares|;
      InterpolatePolynomial(shares.Keys, shares.Keys, polynomials[k]);
      EvalAtZero(polynomials[k]);
    }
  }

  lemma WeightZero(s: set<byte>, i: byte)
    requires i in s
    ensures Weight(s, i) == 0 <==> 0 in s - {i}
  {
    hide Mul, Xor, Pow, Weight, Product;
    var rest := s - {i};
    ProductNonZero(rest, i);
    NoZeroDivisors(Weight(s, i), Product(rest, i));
    if 0 in rest {
      ProductRemove(rest, 0, 0);
      AddZero(0);
      ProductWithZero(0, Product(rest - {0}, 0));
    } else {
      ProductNonZero(rest, 0);
    }
  }

  /**
   A single wrong byte in a single share always shows in the secret, unless another share has index
   zero: that one carries the secret itself and cancels all others.
   */
  lemma OneWrongByte(s: set<byte>, y: map<byte, byte>, i: byte, wrong: byte)
    requires s == y.Keys && i in s && wrong != y[i]
    ensures Interpolate(s, y[i := wrong]) == Interpolate(s, y) <==> 0 in s - {i}
  {
    hide Mul, Xor, Weight, WeightedSum;
    var z := y[i := wrong];
    SumRemove(s, s, y, i);
    SumRemove(s, s, z, i);
    SameSum(s - {i}, s, y, z);
    var rest := WeightedSum(s - {i}, s, y);
    var w := Weight(s, i);
    XorSwapsMiddle(Mul(w, y[i]), rest, Mul(w, wrong), rest);
    XorSelf(rest);
    XorZero(Add(Mul(w, y[i]), Mul(w, wrong)));
    XorZeroIffEqual(Interpolate(s, y), Interpolate(s, z));
    MulAddRight(w, y[i], wrong);
    AddNonZero(y[i], wrong);
    NoZeroDivisors(w, Add(y[i], wrong));
    WeightZero(s, i);
  }

  lemma {:induction false} SameSum(r: set<byte>, s: set<byte>, y: map<byte, byte>, z: map<byte, byte>)
    requires r <= y.Keys && r <= z.Keys
    requires forall i :: i in r ==> y[i] == z[i]
    ensures WeightedSum(r, s, y) == WeightedSum(r, s, z)
    decreases r
  {
    hide Mul, Add, Weight;
    if r == {} {
    } else {
      SameSum(r - {Pick(r)}, s, y, z);
    }
  }
}
