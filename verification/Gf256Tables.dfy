/**
 Powers of the generator x and the exponent and logarithm tables of relayer/signer_horcrux.go.
 The main fact is that x has order 255, so that its powers are all the non-zero bytes and the
 logarithm table is total.
 */
module Gf256Powers {
  import BinaryRing
  import opened Bitwise
  import Field = BinaryField
  import opened Gf256

  /** The i-th power of x: the value the table loop holds in its i-th round. */
  function Pow(i: nat): byte {
    if i == 0 then 1 else XTime(Pow(i - 1))
  }

  lemma PowZero()
    ensures Pow(0) == 1
  {
  }

  lemma PowStep(i: nat)
    ensures Pow(i + 1) == if Bit(Pow(i), 7) then Add(Double(Pow(i)), 0x1d) else Double(Pow(i))
  {
    hide Bit, Add, Double, XTime;
    XTimeShifts(Pow(i));
  }

  lemma {:induction false} SamePow(i: nat)
    ensures Pow(i) == Field.Pow(8, REDUCTION, i)
  {
    hide BinaryRing.XTime;
    if i == 0 {
    } else {
      SamePow(i - 1);
    }
  }

  lemma MulPow(i: nat, a: byte, j: nat)
    requires a == Pow(j)
    ensures Mul(Pow(i), a) == Pow(i + j)
  {
    hide BinaryRing.Mul, Pow, Field.Pow, Pow2;
    BytePowers();
    SamePow(i);
    SamePow(j);
    SamePow(i + j);
    Field.MulPow(8, REDUCTION, i, j);
  }

  lemma PowNonZero(i: nat)
    ensures Pow(i) != 0
  {
    hide Pow, Field.Pow, Pow2;
    BytePowers();
    SamePow(i);
    Field.PowNonZero(8, REDUCTION, i);
  }

  // ---------- The order of x ----------

  /** Multiplication by x written with the digits of the byte, for evaluating it on constants. */
  function XTimeDigits(a: int): int {
    if a < 128 then 2 * a else 2 * a - 227 - 4 * (a % 16 - a % 2)
  }

  lemma XorWith29(h: nat, x3: nat, x2: nat, x1: nat, x0: nat)
    requires x0 < 2 && x1 < 2 && x2 < 2 && x3 < 2
    ensures Xor(2 * (2 * (2 * (2 * (2 * h + x3) + x2) + x1) + x0), 29)
         == 2 * (2 * (2 * (2 * (2 * h + 1 - x3) + 1 - x2) + 1 - x1) + x0) + 1
  {
    hide *;
    XorZero(h);
    XorStep(h, x3, 0, 1);
    XorStep(2 * h + x3, x2, 1, 1);
    XorStep(2 * (2 * h + x3) + x2, x1, 3, 1);
    XorStep(2 * (2 * (2 * h + x3) + x2) + x1, x0, 7, 0);
    XorStep(2 * (2 * (2 * (2 * h + x3) + x2) + x1) + x0, 0, 14, 1);
  }

  lemma Digits(a: byte) returns (h: nat, x3: nat, x2: nat, x1: nat, x0: nat)
    requires a >= 128
    ensures x0 < 2 && x1 < 2 && x2 < 2 && x3 < 2
    ensures a - 128 == 2 * (2 * (2 * (2 * h + x3) + x2) + x1) + x0
    ensures a % 16 - a % 2 == 2 * (2 * (2 * x3 + x2) + x1)
  {
    var a1 := a / 2;
    var a2 := a1 / 2;
    var a3 := a2 / 2;
    h, x3, x2, x1, x0 := a3 / 2 - 8, a3 % 2, a2 % 2, a1 % 2, a % 2;
    assert a == 16 * (h + 8) + (2 * (2 * (2 * x3 + x2) + x1) + x0);
  }

  lemma XTimeOfDigits(a: byte)
    ensures XTime(a) == XTimeDigits(a)
  {
    hide Xor, Bit, Low;
    if a < 128 {
      XTimeSmall(a);
    } else {
      assert Pow2(7) == 128 && Pow2(8) == 256 && Shl(1, 8) == 256 && Shl(a, 1) == 2 * a;
      BinaryRing.TopBit(a, 7);
      JoinSplit(1, 2 * a - 256, 8);
      var h, x3, x2, x1, x0 := Digits(a);
      XorWith29(h, x3, x2, x1, x0);
    }
  }

  /** No power from `lo` up to `hi`, exclusively, is one. */
  ghost predicate NoOne(lo: nat, hi: nat) {
    forall j: nat :: lo <= j < hi ==> Pow(j) != 1
  }

  /** Eight consecutive powers, none of which is one. */
  lemma Row(i: nat, a: byte, b: byte, c: byte, d: byte, e: byte, f: byte, g: byte, h: byte, next: byte)
    requires Pow(i) == a && XTimeDigits(a) == b && XTimeDigits(b) == c && XTimeDigits(c) == d
    requires XTimeDigits(d) == e && XTimeDigits(e) == f && XTimeDigits(f) == g && XTimeDigits(g) == h
    requires XTimeDigits(h) == next
    requires a != 1 && b != 1 && c != 1 && d != 1 && e != 1 && f != 1 && g != 1 && h != 1
    ensures Pow(i + 8) == next && NoOne(i, i + 8)
  {
    hide XTime, XTimeDigits;
    XTimeOfDigits(a); XTimeOfDigits(b); XTimeOfDigits(c); XTimeOfDigits(d);
    XTimeOfDigits(e); XTimeOfDigits(f); XTimeOfDigits(g); XTimeOfDigits(h);
    assert Pow(i + 1) == b && Pow(i + 2) == c && Pow(i + 3) == d;
    assert Pow(i + 4) == e && Pow(i + 5) == f && Pow(i + 6) == g && Pow(i + 7) == h;
  }

  lemma Powers1To33()
    requires Pow(1) == 2
    ensures Pow(33) == 39 && NoOne(1, 33)
  {
    hide XTime, Pow;
    Row(1, 2, 4, 8, 16, 32, 64, 128, 29, 58);
    Row(9, 58, 116, 232, 205, 135, 19, 38, 76, 152);
    Row(17, 152, 45, 90, 180, 117, 234, 201, 143, 3);
    Row(25, 3, 6, 12, 24, 48, 96, 192, 157, 39);
  }

  lemma Powers33To65()
    requires Pow(33) == 39
    ensures Pow(65) == 190 && NoOne(33, 65)
  {
    hide XTime, Pow;
    Row(33, 39, 78, 156, 37, 74, 148, 53, 106, 212);
    Row(41, 212, 181, 119, 238, 193, 159, 35, 70, 140);
    Row(49, 140, 5, 10, 20, 40, 80, 160, 93, 186);
    Row(57, 186, 105, 210, 185, 111, 222, 161, 95, 190);
  }

  lemma Powers65To97()
    requires Pow(65) == 190
    ensures Pow(97) == 175 && NoOne(65, 97)
  {
    hide XTime, Pow;
    Row(65, 190, 97, 194, 153, 47, 94, 188, 101, 202);
    Row(73, 202, 137, 15, 30, 60, 120, 240, 253, 231);
    Row(81, 231, 211, 187, 107, 214, 177, 127, 254, 225);
    Row(89, 225, 223, 163, 91, 182, 113, 226, 217, 175);
  }

  lemma Powers97To129()
    requires Pow(97) == 175
    ensures Pow(129) == 23 && NoOne(97, 129)
  {
    hide XTime, Pow;
    Row(97, 175, 67, 134, 17, 34, 68, 136, 13, 26);
    Row(105, 26, 52, 104, 208, 189, 103, 206, 129, 31);
    Row(113, 31, 62, 124, 248, 237, 199, 147, 59, 118);
    Row(121, 118, 236, 197, 151, 51, 102, 204, 133, 23);
  }

  lemma Powers129To161()
    requires Pow(129) == 23
    ensures Pow(161) == 209 && NoOne(129, 161)
  {
    hide XTime, Pow;
    Row(129, 23, 46, 92, 184, 109, 218, 169, 79, 158);
    Row(137, 158, 33, 66, 132, 21, 42, 84, 168, 77);
    Row(145, 77, 154, 41, 82, 164, 85, 170, 73, 146);
    Row(153, 146, 57, 114, 228, 213, 183, 115, 230, 209);
  }

  lemma Powers161To193()
    requires Pow(161) == 209
    ensures Pow(193) == 25 && NoOne(161, 193)
  {
    hide XTime, Pow;
    Row(161, 209, 191, 99, 198, 145, 63, 126, 252, 229);
    Row(169, 229, 215, 179, 123, 246, 241, 255, 227, 219);
    Row(177, 219, 171, 75, 150, 49, 98, 196, 149, 55);
    Row(185, 55, 110, 220, 165, 87, 174, 65, 130, 25);
  }

  lemma Powers193To225()
    requires Pow(193) == 25
    ensures Pow(225) == 36 && NoOne(193, 225)
  {
    hide XTime, Pow;
    Row(193, 25, 50, 100, 200, 141, 7, 14, 28, 56);
    Row(201, 56, 112, 224, 221, 167, 83, 166, 81, 162);
    Row(209, 162, 89, 178, 121, 242, 249, 239, 195, 155);
    Row(217, 155, 43, 86, 172, 69, 138, 9, 18, 36);
  }

  lemma Powers225To249()
    requires Pow(225) == 36
    ensures Pow(249) == 54 && NoOne(225, 249)
  {
    hide XTime, Pow;
    Row(225, 36, 72, 144, 61, 122, 244, 245, 247, 243);
    Row(233, 243, 251, 235, 203, 139, 11, 22, 44, 88);
    Row(241, 88, 176, 125, 250, 233, 207, 131, 27, 54);
  }

  lemma LastPowers()
    requires Pow(249) == 54
    ensures Pow(255) == 1 && NoOne(249, 255)
  {
    hide XTime;
    XTimeOfDigits(54); XTimeOfDigits(108); XTimeOfDigits(216);
    XTimeOfDigits(173); XTimeOfDigits(71); XTimeOfDigits(142);
    assert Pow(250) == 108 && Pow(251) == 216 && Pow(252) == 173 && Pow(253) == 71 && Pow(254) == 142;
  }

  /** x has order 255. */
  lemma OrderOfX()
    ensures Pow(255) == 1 && NoOne(1, 255)
  {
    hide XTime, XTimeDigits;
    assert Pow(1) == 2 by {
      XTimeSmall(1);
    }
    Powers1To33(); Powers33To65(); Powers65To97(); Powers97To129();
    Powers129To161(); Powers161To193(); Powers193To225(); Powers225To249();
    LastPowers();
  }

  lemma {:induction false} PowPeriod(i: nat)
    ensures Pow(i + 255) == Pow(i)
  {
    hide XTime;
    if i == 0 {
      OrderOfX();
    } else {
      PowPeriod(i - 1);
    }
  }

  lemma XIsPrimitive()
    ensures Field.Primitive(8, REDUCTION)
  {
    hide Pow, Field.Pow, Pow2;
    BytePowers();
    OrderOfX();
    SamePow(255);
    forall j: nat | 1 <= j < 255
      ensures Field.Pow(8, REDUCTION, j) != 1
    {
      SamePow(j);
    }
  }

  lemma PowInjective(i: nat, j: nat)
    requires i < j < 255
    ensures Pow(i) != Pow(j)
  {
    hide Pow, Field.Pow, Field.Primitive, Pow2;
    BytePowers();
    XIsPrimitive();
    SamePow(i);
    SamePow(j);
    Field.PowInjective(8, REDUCTION, i, j);
  }

  /** Every non-zero byte is a power of x. */
  lemma EveryByteIsAPower(v: byte) returns (k: nat)
    requires v != 0
    ensures k < 255 && Pow(k) == v
  {
    hide Pow, Field.Pow, Field.Primitive, Pow2;
    BytePowers();
    XIsPrimitive();
    k := Field.EveryElementIsAPower(8, REDUCTION, v);
    SamePow(k);
  }

  /** A field has no zero divisors. */
  lemma NoZeroDivisors(a: byte, b: byte)
    ensures Mul(a, b) == 0 <==> a == 0 || b == 0
  {
    hide BinaryRing.Mul, Field.Primitive, Pow2;
    BytePowers();
    XIsPrimitive();
    Field.NoZeroDivisors(8, REDUCTION, a, b);
  }
}

module Gf256Tables {
  import opened Bitwise
  import opened Prelude
  import opened Gf256
  import opened Gf256Powers

  /** The global tables of the signer and the arithmetic on them. */
  class Tables {
    const exp: array<byte>
    const log: array<byte>

    ghost predicate Valid()
      reads exp, log
    {
      && exp.Length == 512 && log.Length == 256
      && (forall i :: 0 <= i < 512 ==> exp[i] == Pow(i))
      && (forall v: byte :: v != 0 ==> log[v] < 255 && Pow(log[v]) == v)
    }

    /** The package initialiser of the signer. */
    constructor ()
      ensures Valid() && fresh(exp) && fresh(log)
    {
      exp := new byte[512](_ => 0);
      log := new byte[256](_ => 0);
      new;
      hide Pow;
      FillPowers(exp, log);
      ExtendPowers(exp);
      forall v: byte | v != 0
        ensures log[v] < 255 && Pow(log[v]) == v
      {
        var k := EveryByteIsAPower(v);
      }
    }

    /** First loop: x runs through the 255 powers, each stored with its logarithm. */
    static method FillPowers(exp: array<byte>, log: array<byte>)
      requires exp.Length == 512 && log.Length == 256 && exp != log
      modifies exp, log
      ensures forall k :: 0 <= k < 255 ==> exp[k] == Pow(k) && log[Pow(k)] == k
    {
      hide *;
      PowZero();
      var x: byte := 1;
      for i := 0 to 255
        invariant x == Pow(i)
        invariant forall k :: 0 <= k < i ==> exp[k] == Pow(k)
        invariant forall k :: 0 <= k < i ==> log[Pow(k)] == k
      {
        forall k | 0 <= k < i
          ensures Pow(k) != x
        {
          PowInjective(k, i);
        }
        exp[i] := x;
        log[x] := i;
        PowStep(i);
        if Bit(x, 7) {
          x := Add(Double(x), 0x1d);
        } else {
          x := Double(x);
        }
      }
    }

    /** Second loop: the exponent table continues periodically, so that sums of logarithms need no reduction. */
    static method ExtendPowers(exp: array<byte>)
      requires exp.Length == 512
      requires forall k :: 0 <= k < 255 ==> exp[k] == Pow(k)
      modifies exp
      ensures forall k :: 0 <= k < 512 ==> exp[k] == Pow(k)
    {
      hide *;
      for i := 255 to 512
        invariant forall k :: 0 <= k < i ==> exp[k] == Pow(k)
      {
        PowPeriod(i - 255);
        exp[i] := exp[i - 255];
      }
    }

    /** gf256Mul: the sum of the logarithms never leaves the table. */
    function TableMul(a: byte, b: byte): (r: byte)
      requires Valid()
      reads exp, log
      ensures r == Mul(a, b)
    {
      hide XTime, Pow, Mul, Xor, Bit;
      if a == 0 || b == 0 then
        ProductWithZero(a, b);
        0
      else
        MulPow(log[a], b, log[b]);
        exp[log[a] as int + log[b] as int]
    }

    /** gf256Div: None is the division-by-zero panic; zero divided by anything is zero. */
    function TableDiv(a: byte, b: byte): (r: Option<byte>)
      requires Valid()
      reads exp, log
      ensures r.None? <==> a != 0 && b == 0
      ensures r.Some? ==> Mul(r.value, b) == a
      ensures r.Some? && a == 0 ==> r.value == 0
    {
      hide XTime, Pow, Mul, Xor, Bit;
      if a == 0 then
        MulZeroLeft(b);
        Some(0)
      else if b == 0 then None
      else
        var diff := log[a] as int - log[b] as int;
        var index := if diff < 0 then diff + 255 else diff;
        MulPow(index, b, log[b]);
        PowPeriod(log[a]);
        Some(exp[index])
    }
  }
}
