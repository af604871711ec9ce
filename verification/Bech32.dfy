/**
 The Bech32 and Bech32m checksum of scratch/calc_bech32m.py: a linear code over five-bit symbols.
 All values are non-negative Python integers.
 */
module Bech32 {
  import opened Bitwise

  const GENERATOR: seq<nat> := [0x3b6a57b2, 0x26508e6d, 0x1ea119fa, 0x3d4233dd, 0x2a1462b3]

  datatype Spec = Bech32 | Bech32m

  function SpecConstant(spec: Spec): nat {
    if spec == Bech32m then 0x2bc830a3 else 1
  }

  type symbol = x: nat | x < 32

  // ---------- The polymod ----------

  /** The exclusive or of the generators selected by the first `n` bits of `top`. */
  function Feedback(top: nat, n: nat): nat
    requires n <= 5
  {
    if n == 0 then 0
    else Xor(Feedback(top, n - 1), if Bit(top, n - 1) then GENERATOR[n - 1] else 0)
  }

  /** One round: shift in a symbol, feed back the five bits shifted out of 30. */
  function Round(chk: nat, value: nat): nat {
    Xor(Xor(Shl(Low(chk, 25), 5), value), Feedback(Shr(chk, 25), 5))
  }

  function Polymod(chk: nat, values: seq<nat>): nat
    decreases |values|
  {
    hide Round;
    if values == [] then chk else Polymod(Round(chk, values[0]), values[1..])
  }

  /** bech32_polymod */
  method ComputePolymod(values: seq<nat>) returns (chk: nat)
    ensures chk == Polymod(1, values)
  {
    hide Xor, Shl, Shr, Low, Bit;
    chk := 1;
    for k := 0 to |values|
      invariant Polymod(chk, values[k..]) == Polymod(1, values)
    {
      var top := Shr(chk, 25);
      ghost var before := Polymod(chk, values[k..]);
      chk := Xor(Shl(Low(chk, 25), 5), values[k]);
      ghost var shifted := chk;
      XorZero(shifted);
      for i := 0 to 5
        invariant chk == Xor(shifted, Feedback(top, i))
      {
        var tap := if Bit(top, i) then GENERATOR[i] else 0;
        XorAssociates(shifted, Feedback(top, i), tap);
        chk := Xor(chk, tap);
      }
      assert values[k..][1..] == values[k + 1..];
    }
  }

  // ---------- Linearity ----------

  lemma {:induction false} FeedbackLinear(s: nat, t: nat, n: nat)
    requires n <= 5
    ensures Feedback(Xor(s, t), n) == Xor(Feedback(s, n), Feedback(t, n))
  {
    hide Xor, Bit;
    XorZero(0);
    if n == 0 {
    } else {
      FeedbackLinear(s, t, n - 1);
      XorBit(s, t, n - 1);
      var g := GENERATOR[n - 1];
      XorSelf(g);
      XorZero(g);
      XorSwapsMiddle(Feedback(s, n - 1), Feedback(t, n - 1),
                     if Bit(s, n - 1) then g else 0, if Bit(t, n - 1) then g else 0);
    }
  }

  lemma RoundLinear(a: nat, b: nat, v: nat, w: nat)
    ensures Round(Xor(a, b), Xor(v, w)) == Xor(Round(a, v), Round(b, w))
  {
    hide Xor, Shl, Shr, Low, Bit, Feedback;
    XorLow(a, b, 25);
    XorShl(Low(a, 25), Low(b, 25), 5);
    XorShr(a, b, 25);
    FeedbackLinear(Shr(a, 25), Shr(b, 25), 5);
    XorSwapsMiddle(Shl(Low(a, 25), 5), Shl(Low(b, 25), 5), v, w);
    XorSwapsMiddle(Xor(Shl(Low(a, 25), 5), v), Xor(Shl(Low(b, 25), 5), w),
                   Feedback(Shr(a, 25), 5), Feedback(Shr(b, 25), 5));
  }

  /** The element-wise exclusive or of two lists. */
  function Difference(v: seq<nat>, w: seq<nat>): (d: seq<nat>)
    requires |v| == |w|
    ensures |d| == |v|
  {
    if v == [] then [] else [Xor(v[0], w[0])] + Difference(v[1..], w[1..])
  }

  lemma {:induction false} PolymodLinear(a: nat, b: nat, v: seq<nat>, w: seq<nat>)
    requires |v| == |w|
    ensures Polymod(Xor(a, b), Difference(v, w)) == Xor(Polymod(a, v), Polymod(b, w))
    decreases |v|
  {
    hide Xor, Round;
    if v == [] {
    } else {
      RoundLinear(a, b, v[0], w[0]);
      PolymodLinear(Round(a, v[0]), Round(b, w[0]), v[1..], w[1..]);
      assert Difference(v, w)[1..] == Difference(v[1..], w[1..]);
    }
  }

  lemma {:induction false} PolymodAppend(chk: nat, v: seq<nat>, w: seq<nat>)
    ensures Polymod(chk, v + w) == Polymod(Polymod(chk, v), w)
    decreases |v|
  {
    hide Round;
    if v == [] {
      assert v + w == w;
    } else {
      PolymodAppend(Round(chk, v[0]), v[1..], w);
      assert (v + w)[1..] == v[1..] + w;
    }
  }

  // ---------- Ranges ----------

  lemma Pow2Values()
    ensures Pow2(5) == 32 && Pow2(25) == 0x2000000 && Pow2(30) == 0x40000000
  {
    assert Pow2(10) == 0x400 && Pow2(15) == 0x8000 && Pow2(20) == 0x100000;
  }

  lemma {:induction false} FeedbackBelow(top: nat, n: nat)
    requires n <= 5
    ensures Feedback(top, n) < 0x40000000
  {
    hide Xor, Bit;
    if n == 0 {
    } else {
      FeedbackBelow(top, n - 1);
      Pow2Values();
      XorBelow(Feedback(top, n - 1), if Bit(top, n - 1) then GENERATOR[n - 1] else 0, 30);
    }
  }

  lemma RoundBelow(chk: nat, value: nat)
    requires value < 0x40000000
    ensures Round(chk, value) < 0x40000000
  {
    hide Xor, Bit, Low, Shl, Shr, Feedback;
    Pow2Values();
    LowBound(chk, 25);
    ShlBelow(Low(chk, 25), 25, 5);
    XorBelow(Shl(Low(chk, 25), 5), value, 30);
    FeedbackBelow(Shr(chk, 25), 5);
    XorBelow(Xor(Shl(Low(chk, 25), 5), value), Feedback(Shr(chk, 25), 5), 30);
  }

  lemma {:induction false} PolymodBelow(chk: nat, values: seq<nat>)
    requires chk < 0x40000000 && forall v :: v in values ==> v < 0x40000000
    ensures Polymod(chk, values) < 0x40000000
    decreases |values|
  {
    hide Round;
    if values == [] {
    } else {
      assert values[0] in values && forall v :: v in values[1..] ==> v in values;
      RoundBelow(chk, values[0]);
      PolymodBelow(Round(chk, values[0]), values[1..]);
    }
  }

  // ---------- A single wrong symbol is always detected ----------

  /** Bit j of the feedback is the parity of the selected generators that have bit j. */
  lemma FeedbackBit(top: nat, j: nat)
    ensures Bit(Feedback(top, 5), j) ==
      (((((Bit(top, 0) && Bit(GENERATOR[0], j)) != (Bit(top, 1) && Bit(GENERATOR[1], j)))
         != (Bit(top, 2) && Bit(GENERATOR[2], j))) != (Bit(top, 3) && Bit(GENERATOR[3], j)))
         != (Bit(top, 4) && Bit(GENERATOR[4], j)))
  {
    hide Xor, Bit, Feedback;
    FeedbackBitStep(top, 0, j);
    FeedbackBitStep(top, 1, j);
    FeedbackBitStep(top, 2, j);
    FeedbackBitStep(top, 3, j);
    FeedbackBitStep(top, 4, j);
    NoFeedback(top, j);
  }

  lemma FeedbackBitStep(top: nat, i: nat, j: nat)
    requires i < 5
    ensures Bit(Feedback(top, i + 1), j) == (Bit(Feedback(top, i), j) != (Bit(top, i) && Bit(GENERATOR[i], j)))
  {
    hide Xor, Bit;
    XorBit(Feedback(top, i), if Bit(top, i) then GENERATOR[i] else 0, j);
    NoBitsInZero(j);
  }

  lemma NoFeedback(top: nat, j: nat)
    ensures !Bit(Feedback(top, 0), j)
  {
    NoBitsInZero(j);
  }

  /** The last five bits of the generators, one row per generator, the lowest bit first. */
  lemma GeneratorBits()
    ensures !Bit(GENERATOR[0], 0) && Bit(GENERATOR[0], 1) && !Bit(GENERATOR[0], 2) && !Bit(GENERATOR[0], 3) &&
              Bit(GENERATOR[0], 4)
    ensures Bit(GENERATOR[1], 0) && !Bit(GENERATOR[1], 1) && Bit(GENERATOR[1], 2) && Bit(GENERATOR[1], 3) &&
              !Bit(GENERATOR[1], 4)
    ensures !Bit(GENERATOR[2], 0) && Bit(GENERATOR[2], 1) && !Bit(GENERATOR[2], 2) && Bit(GENERATOR[2], 3) &&
              Bit(GENERATOR[2], 4)
    ensures Bit(GENERATOR[3], 0) && !Bit(GENERATOR[3], 1) && Bit(GENERATOR[3], 2) && Bit(GENERATOR[3], 3) &&
              Bit(GENERATOR[3], 4)
    ensures Bit(GENERATOR[4], 0) && Bit(GENERATOR[4], 1) && !Bit(GENERATOR[4], 2) && !Bit(GENERATOR[4], 3) &&
              Bit(GENERATOR[4], 4)
  {
  }

  /** A number without bits is zero. */
  lemma {:induction false} NoBits(a: nat, k: nat)
    requires a < Pow2(k) && forall j :: 0 <= j < k ==> !Bit(a, j)
    ensures a == 0
  {
    if k == 0 {
    } else {
      forall j | 0 <= j < k - 1
        ensures !Bit(a / 2, j)
      {
        assert !Bit(a, j + 1);
      }
      assert !Bit(a, 0);
      NoBits(a / 2, k - 1);
    }
  }

  lemma {:induction false} BitOfShl(a: nat, k: nat, j: nat)
    ensures Bit(Shl(a, k), j) == (j >= k && Bit(a, j - k))
  {
    if k != 0 && j != 0 {
      BitOfShl(a, k - 1, j - 1);
    }
  }

  /** The feedback of a non-zero symbol touches the last five bits. */
  lemma FeedbackInjective(top: nat)
    requires top < 32
    requires forall j :: 0 <= j < 5 ==> !Bit(Feedback(top, 5), j)
    ensures top == 0
  {
    hide Xor, Bit, Feedback;
    GeneratorBits();
    FeedbackBit(top, 0);
    FeedbackBit(top, 1);
    FeedbackBit(top, 2);
    FeedbackBit(top, 3);
    FeedbackBit(top, 4);
    Pow2Values();
    NoBits(top, 5);
  }

  /** The bits of a round without input. */
  lemma RoundBit(chk: nat, j: nat)
    ensures Bit(Round(chk, 0), j) == ((j >= 5 && Bit(Low(chk, 25), j - 5)) != Bit(Feedback(Shr(chk, 25), 5), j))
  {
    hide Xor, Bit, Feedback, Low, Shl, Shr;
    XorZero(Shl(Low(chk, 25), 5));
    XorBit(Shl(Low(chk, 25), 5), Feedback(Shr(chk, 25), 5), j);
    BitOfShl(Low(chk, 25), 5, j);
  }

  /** A round without input loses nothing. */
  lemma RoundZero(chk: nat)
    requires chk < 0x40000000 && Round(chk, 0) == 0
    ensures chk == 0
  {
    hide Xor, Bit, Low, Shr, Feedback, Shl, Round;
    TopSymbol(chk);
    var top := Shr(chk, 25);
    forall j | 0 <= j < 5
      ensures !Bit(Feedback(top, 5), j)
    {
      RoundBit(chk, j);
      NoBitsInZero(j);
    }
    FeedbackInjective(top);
    RoundWithoutFeedback(chk);
    SplitJoin(chk, 25);
    ShlZero(Low(chk, 25), 5);
    ShlZero(0, 25);
  }

  lemma TopSymbol(chk: nat)
    requires chk < 0x40000000
    ensures Shr(chk, 25) < 32
  {
    hide Shr, Low, Shl;
    SplitJoin(chk, 25);
    if Shr(chk, 25) >= 32 {
      ShlMonotone(32, Shr(chk, 25), 25);
      Pow2Values();
      ShlOfPow2(5, 25);
    }
  }

  lemma {:induction false} ShlOfPow2(j: nat, k: nat)
    ensures Shl(Pow2(j), k) == Pow2(j + k)
  {
    if k == 0 {
    } else {
      ShlOfPow2(j, k - 1);
    }
  }

  lemma {:induction false} ShlMonotone(a: nat, b: nat, k: nat)
    requires a <= b
    ensures Shl(a, k) <= Shl(b, k)
  {
    if k == 0 {
    } else {
      ShlMonotone(a, b, k - 1);
    }
  }

  /** While fewer than 26 bits are in use, a round only shifts. */
  lemma RoundWithoutFeedback(chk: nat)
    requires Shr(chk, 25) == 0
    ensures Round(chk, 0) == Shl(Low(chk, 25), 5)
    ensures forall v: nat :: Round(chk, v) == Xor(Shl(Low(chk, 25), 5), v)
  {
    hide Xor, Low, Shl, Shr, Feedback;
    NoTaps(5);
    XorZero(Shl(Low(chk, 25), 5));
    forall v: nat
      ensures Round(chk, v) == Xor(Shl(Low(chk, 25), 5), v)
    {
      XorZero(Xor(Shl(Low(chk, 25), 5), v));
    }
  }

  lemma {:induction false} NoTaps(n: nat)
    requires n <= 5
    ensures Feedback(0, n) == 0
  {
    hide Xor;
    if n == 0 {
    } else {
      NoTaps(n - 1);
      XorZero(0);
      NoBitsInZero(n - 1);
    }
  }

  /** A non-zero state never dies out while zeros are shifted in. */
  lemma {:induction false} ErrorSurvives(state: nat, zeros: seq<nat>)
    requires 0 < state < 0x40000000 && forall i :: 0 <= i < |zeros| ==> zeros[i] == 0
    ensures Polymod(state, zeros) != 0
    decreases |zeros|
  {
    hide Round;
    if zeros == [] {
    } else {
      RoundBelow(state, 0);
      if Round(state, 0) == 0 {
        RoundZero(state);
      }
      ErrorSurvives(Round(state, 0), zeros[1..]);
    }
  }

  lemma {:induction false} DifferenceOfEqual(v: seq<nat>)
    ensures forall i :: 0 <= i < |v| ==> Difference(v, v)[i] == 0
  {
    hide Xor;
    if v == [] {
    } else {
      XorSelf(v[0]);
      DifferenceOfEqual(v[1..]);
    }
  }

  lemma {:induction false} ZerosFromZero(zeros: seq<nat>)
    requires forall i :: 0 <= i < |zeros| ==> zeros[i] == 0
    ensures Polymod(0, zeros) == 0
    decreases |zeros|
  {
    hide Xor, Round;
    if zeros == [] {
    } else {
      RoundOfZero(0);
      XorZero(0);
      ZerosFromZero(zeros[1..]);
    }
  }

  lemma RoundOfZero(v: nat)
    ensures Round(0, v) == v
  {
    hide Xor, Feedback;
    assert Shr(0, 25) == 0 && Low(0, 25) == 0 && Shl(0, 5) == 0 by {
      LowOfSmall(0, 25);
      ShlZero(0, 5);
    }
    NoTaps(5);
    XorZero(v);
  }

  /** Two lists that differ in exactly one place have different residues, from any starting state. */
  lemma SingleErrorDetected(chk: nat, before: seq<nat>, right: nat, wrong: nat, after: seq<nat>)
    requires right != wrong && right < 0x40000000 && wrong < 0x40000000
    ensures Polymod(chk, before + [right] + after) != Polymod(chk, before + [wrong] + after)
  {
    hide Xor, Round, Polymod;
    var s := Polymod(chk, before);
    var a, b := Round(s, right), Round(s, wrong);
    PolymodAppend(chk, before, [right]);
    PolymodAppend(chk, before, [wrong]);
    PolymodAppend(chk, before + [right], after);
    PolymodAppend(chk, before + [wrong], after);
    PolymodOne(s, right);
    PolymodOne(s, wrong);
    RoundLinear(s, s, right, wrong);
    XorSelf(s);
    RoundOfZero(Xor(right, wrong));
    XorZeroIffEqual(right, wrong);
    Pow2Values();
    XorBelow(right, wrong, 30);
    PolymodLinear(a, b, after, after);
    DifferenceOfEqual(after);
    ErrorSurvives(Xor(a, b), Difference(after, after));
    XorZeroIffEqual(Polymod(a, after), Polymod(b, after));
  }

  lemma PolymodOne(chk: nat, v: nat)
    ensures Polymod(chk, [v]) == Round(chk, v)
  {
    hide Round;
    assert [v][1..] == [];
  }

  // ---------- The checksum ----------

  /** bech32_hrp_expand */
  function HrpExpand(hrp: string): seq<nat> {
    seq(|hrp|, i requires 0 <= i < |hrp| => Shr(hrp[i] as nat, 5)) + [0]
      + seq(|hrp|, i requires 0 <= i < |hrp| => Low(hrp[i] as nat, 5))
  }

  const SIX_ZEROS: seq<nat> := [0, 0, 0, 0, 0, 0]

  function Symbol(polymod: nat, i: nat): symbol
    requires i < 6
  {
    Pow2Values();
    LowBound(Shr(polymod, 5 * (5 - i)), 5);
    Low(Shr(polymod, 5 * (5 - i)), 5)
  }

  /** create_checksum */
  function CreateChecksum(hrp: string, data: seq<nat>, spec: Spec): seq<symbol> {
    var values := HrpExpand(hrp) + data;
    var polymod := Xor(Polymod(1, values + SIX_ZEROS), SpecConstant(spec));
    seq(6, i requires 0 <= i < 6 => Symbol(polymod, i))
  }

  method ComputeChecksum(hrp: string, data: seq<nat>, spec: Spec) returns (checksum: seq<symbol>)
    ensures checksum == CreateChecksum(hrp, data, spec)
  {
    var polymod := ComputePolymod(HrpExpand(hrp) + data + SIX_ZEROS);
    polymod := Xor(polymod, SpecConstant(spec));
    checksum := seq(6, i requires 0 <= i < 6 => Symbol(polymod, i));
  }

  /** Six symbols read as one 30-bit number. */
  function Packed(chk: nat, symbols: seq<symbol>): nat
    decreases |symbols|
  {
    if symbols == [] then chk else Packed(Shl(chk, 5) + symbols[0], symbols[1..])
  }

  /** Shifting symbols into the empty state only packs them. */
  lemma {:induction false} PolymodPacks(chk: nat, symbols: seq<symbol>, k: nat)
    requires |symbols| + k <= 6 && chk < Pow2(5 * k)
    ensures Polymod(chk, symbols) == Packed(chk, symbols)
    decreases |symbols|
  {
    hide Xor, Round, Shl, Pow2;
    if symbols == [] {
    } else {
      var v := symbols[0];
      Pow2Monotone(5 * k, 25);
      LowOfSmall(chk, 25);
      RoundWithoutFeedback(chk);
      Pow2Values();
      XorDisjoint(chk, v, 5);
      ShlBelow(chk, 5 * k, 5);
      PolymodPacks(Shl(chk, 5) + v, symbols[1..], k + 1);
    }
  }

  lemma {:induction false} Pow2Monotone(j: nat, k: nat)
    requires j <= k
    ensures Pow2(j) <= Pow2(k)
  {
    if j < k {
      Pow2Monotone(j, k - 1);
    }
  }

  lemma {:induction false} ShrTwice(a: nat, j: nat, k: nat)
    ensures Shr(Shr(a, j), k) == Shr(a, j + k)
  {
    if j == 0 {
    } else {
      ShrTwice(a / 2, j - 1, k);
    }
  }

  lemma NextSymbol(p: nat, i: nat)
    requires 1 <= i < 6
    ensures Shr(p, 5 * (5 - i)) == Shl(Shr(p, 5 * (6 - i)), 5) + Symbol(p, i)
  {
    hide Shr, Shl, Low;
    ShrTwice(p, 5 * (5 - i), 5);
    SplitJoin(Shr(p, 5 * (5 - i)), 5);
  }

  /** Cutting a 30-bit number into six symbols and packing them is the identity. */
  lemma PackSymbols(p: nat)
    requires p < 0x40000000
    ensures Packed(0, seq(6, i requires 0 <= i < 6 => Symbol(p, i))) == p
  {
    hide Shr, Shl, Low, Symbol, Packed;
    var s := seq(6, i requires 0 <= i < 6 => Symbol(p, i));
    assert s == [Symbol(p, 0), Symbol(p, 1), Symbol(p, 2), Symbol(p, 3), Symbol(p, 4), Symbol(p, 5)];
    FirstSymbol(p);
    NextSymbol(p, 1);
    NextSymbol(p, 2);
    NextSymbol(p, 3);
    NextSymbol(p, 4);
    NextSymbol(p, 5);
    ShrNone(p);
    PackedStep(0, s[0], s[1..]);
    ShlZero(0, 5);
    assert s == [s[0]] + s[1..];
    PackedStep(s[0], s[1], s[2..]);
    assert s[1..] == [s[1]] + s[2..];
    PackedStep(Shr(p, 20), s[2], s[3..]);
    assert s[2..] == [s[2]] + s[3..];
    PackedStep(Shr(p, 15), s[3], s[4..]);
    assert s[3..] == [s[3]] + s[4..];
    PackedStep(Shr(p, 10), s[4], s[5..]);
    assert s[4..] == [s[4]] + s[5..];
    PackedStep(Shr(p, 5), s[5], []);
    assert s[5..] == [s[5]] + [];
    PackedNone(p);
  }

  lemma FirstSymbol(p: nat)
    requires p < 0x40000000
    ensures Symbol(p, 0) == Shr(p, 25)
  {
    hide Shr, Low;
    TopSymbol(p);
    Pow2Values();
    LowOfSmall(Shr(p, 25), 5);
  }

  lemma ShrNone(p: nat)
    ensures Shr(p, 0) == p
  {
  }

  lemma PackedNone(chk: nat)
    ensures Packed(chk, []) == chk
  {
  }

  lemma PackedStep(chk: nat, v: symbol, rest: seq<symbol>)
    ensures Packed(chk, [v] + rest) == Packed(Shl(chk, 5) + v, rest)
  {
    hide Shl;
    assert ([v] + rest)[1..] == rest;
  }

  /** Packing is injective on lists of the same length. */
  lemma {:induction false} PackedInjective(a: nat, b: nat, v: seq<symbol>, w: seq<symbol>)
    requires |v| == |w| && Packed(a, v) == Packed(b, w)
    ensures a == b && v == w
    decreases |v|
  {
    hide Shl;
    if v == [] {
    } else {
      PackedInjective(Shl(a, 5) + v[0], Shl(b, 5) + w[0], v[1..], w[1..]);
      Pow2Values();
      JoinSplit(a, v[0], 5);
      JoinSplit(b, w[0], 5);
      assert v == [v[0]] + v[1..] && w == [w[0]] + w[1..];
    }
  }

  lemma {:induction false} DifferenceIsSymbols(v: seq<symbol>, w: seq<symbol>)
    requires |v| == |w|
    ensures forall i :: 0 <= i < |v| ==> Difference(v, w)[i] < 32
    ensures (forall i :: 0 <= i < |v| ==> Difference(v, w)[i] == 0) ==> v == w
    decreases |v|
  {
    hide Xor, Pow2;
    if v == [] {
    } else {
      Pow2Values();
      XorBelow(v[0], w[0], 5);
      XorZeroIffEqual(v[0], w[0]);
      DifferenceIsSymbols(v[1..], w[1..]);
      var d := Difference(v, w);
      assert d == [Xor(v[0], w[0])] + Difference(v[1..], w[1..]);
      if forall i :: 0 <= i < |v| ==> d[i] == 0 {
        assert d[0] == 0;
        assert forall i :: 0 <= i < |v[1..]| ==> Difference(v[1..], w[1..])[i] == d[i + 1];
        assert v == [v[0]] + v[1..] && w == [w[0]] + w[1..];
      }
    }
  }

  /** Up to six symbols that are not all zero leave the empty state. */
  lemma BurstNotZero(symbols: seq<symbol>)
    requires |symbols| <= 6 && exists i :: 0 <= i < |symbols| && symbols[i] != 0
    ensures Polymod(0, symbols) != 0
  {
    hide Polymod, Packed;
    var zeros: seq<symbol> := seq(|symbols|, _ => 0);
    ZerosFromZero(zeros);
    PolymodPacks(0, zeros, 0);
    PolymodPacks(0, symbols, 0);
    if Packed(0, symbols) == Packed(0, zeros) {
      PackedInjective(0, 0, symbols, zeros);
    }
  }

  /**
   Two lists that differ only inside a stretch of at most six symbols have different residues, at any
   length and position and from any starting state.
   */
  lemma BurstDetected(chk: nat, before: seq<nat>, right: seq<symbol>, wrong: seq<symbol>, after: seq<nat>)
    requires |right| == |wrong| <= 6 && right != wrong
    ensures Polymod(chk, before + right + after) != Polymod(chk, before + wrong + after)
  {
    hide Xor, Round, Polymod;
    var s := Polymod(chk, before);
    var a, b := Polymod(s, right), Polymod(s, wrong);
    PolymodAppend(chk, before, right);
    PolymodAppend(chk, before, wrong);
    PolymodAppend(chk, before + right, after);
    PolymodAppend(chk, before + wrong, after);
    PolymodLinear(s, s, right, wrong);
    XorSelf(s);
    DifferenceIsSymbols(right, wrong);
    var d: seq<symbol> := Difference(right, wrong);
    BurstNotZero(d);
    PolymodBelow(0, d);
    PolymodLinear(a, b, after, after);
    DifferenceOfEqual(after);
    ErrorSurvives(Xor(a, b), Difference(after, after));
    XorZeroIffEqual(Polymod(a, after), Polymod(b, after));
  }

  predicate ValidString(hrp: string, data: seq<nat>, checksum: seq<nat>, spec: Spec) {
    Polymod(1, HrpExpand(hrp) + data + checksum) == SpecConstant(spec)
  }

  lemma HrpExpandBelow(hrp: string)
    ensures forall v :: v in HrpExpand(hrp) ==> v < 0x40000000
  {
    hide Shr, Low;
    forall v | v in HrpExpand(hrp)
      ensures v < 0x40000000
    {
      if i :| 0 <= i < |hrp| && (v == Shr(hrp[i] as nat, 5) || v == Low(hrp[i] as nat, 5)) {
        ShrAtMost(hrp[i] as nat, 5);
        Pow2Values();
        LowBound(hrp[i] as nat, 5);
      }
    }
  }

  lemma {:induction false} ShrAtMost(a: nat, k: nat)
    ensures Shr(a, k) <= a
  {
    if k == 0 {
    } else {
      ShrAtMost(a / 2, k - 1);
    }
  }

  /**
   Six symbols make the string valid if and only if they are the created checksum: it satisfies the
   check, and nothing else does.
   */
  lemma ChecksumIsTheOnlyOne(hrp: string, data: seq<symbol>, spec: Spec, symbols: seq<symbol>)
    requires |symbols| == 6
    ensures ValidString(hrp, data, symbols, spec) <==> symbols == CreateChecksum(hrp, data, spec)
  {
    hide Xor, Polymod, Packed, Symbol, HrpExpand;
    var values := HrpExpand(hrp) + data;
    var q := Polymod(1, values + SIX_ZEROS);
    var const_ := SpecConstant(spec);
    var p := Xor(q, const_);
    HrpExpandBelow(hrp);
    PolymodBelow(1, values + SIX_ZEROS);
    Pow2Values();
    XorBelow(q, const_, 30);
    var checksum := CreateChecksum(hrp, data, spec);
    PackSymbols(p);
    // the six zeros and the six symbols differ by the packed symbols
    PolymodAppend(1, values, SIX_ZEROS);
    PolymodAppend(1, values, symbols);
    var s := Polymod(1, values);
    PolymodLinear(s, 0, SIX_ZEROS, symbols);
    DifferenceWithZeros(symbols);
    XorZero(s);
    PolymodPacks(0, symbols, 0);
    XorZeroIffEqual(p, Packed(0, symbols));
    // Polymod(1, values + symbols) == q ^ packed, which is the constant iff packed == q ^ constant
    XorEquation(q, Packed(0, symbols), const_);
    if Packed(0, symbols) == p {
      PackedInjective(0, 0, symbols, checksum);
    }
  }

  lemma XorEquation(q: nat, x: nat, c: nat)
    ensures Xor(q, x) == c <==> x == Xor(q, c)
  {
    hide Xor;
    XorCancels(q, x);
    XorCancels(q, c);
  }

  lemma DifferenceWithZeros(symbols: seq<symbol>)
    requires |symbols| == 6
    ensures Difference(SIX_ZEROS, symbols) == symbols
  {
    hide Xor;
    DifferenceFromZeros(SIX_ZEROS, symbols);
  }

  lemma {:induction false} DifferenceFromZeros(zeros: seq<nat>, w: seq<nat>)
    requires |zeros| == |w| && forall i :: 0 <= i < |zeros| ==> zeros[i] == 0
    ensures Difference(zeros, w) == w
  {
    hide Xor;
    if w == [] {
    } else {
      XorZero(w[0]);
      DifferenceFromZeros(zeros[1..], w[1..]);
      assert w == [w[0]] + w[1..];
    }
  }

  // ---------- Inserted zeros ----------

  lemma RoundSplits(s: nat, c: nat)
    ensures Round(s, c) == Xor(Round(s, 0), c)
  {
    hide Xor, Round;
    RoundLinear(s, 0, 0, c);
    RoundOfZero(c);
    XorZero(s);
    XorZero(c);
  }

  lemma {:induction false} BitAbove(a: nat, k: nat, j: nat)
    requires a < Pow2(k) && k <= j
    ensures !Bit(a, j)
  {
    if k == 0 {
      NoBitsInZero(j);
    } else {
      BitAbove(a / 2, k - 1, j - 1);
    }
  }

  lemma {:induction false} BitOfShr(a: nat, k: nat, j: nat)
    ensures Bit(Shr(a, k), j) == Bit(a, k + j)
  {
    if k == 0 {
    } else {
      BitOfShr(a / 2, k - 1, j);
    }
  }

  lemma ConstantBits()
    ensures !Bit(0x2bc830a3, 6) && !Bit(0x2bc830a3, 11)
  {
    hide Bit, Shr;
    BitOfShr(0x2bc830a3, 5, 1);
    BitOfShr(0x2bc830a3, 5, 6);
    BitOfShr(0x15e4185, 5, 1);
    ShiftedConstant();
    SmallBits();
  }

  lemma ShiftedConstant()
    ensures Shr(0x2bc830a3, 5) == 0x15e4185 && Shr(0x15e4185, 5) == 0xaf20c
  {
  }

  lemma SmallBits()
    ensures !Bit(0x15e4185, 1) && !Bit(0xaf20c, 1)
    ensures Bit(21, 0) && !Bit(21, 1) && Bit(21, 2) && !Bit(21, 3) && Bit(21, 4)
  {
  }

  lemma GeneratorBit11()
    ensures !Bit(GENERATOR[0], 11) && Bit(GENERATOR[2], 11) && !Bit(GENERATOR[4], 11)
  {
    hide Bit, Shr;
    BitOfShr(0x3b6a57b2, 5, 6); BitOfShr(0x1db52bd, 5, 1);
    BitOfShr(0x1ea119fa, 5, 6); BitOfShr(0xf508cf, 5, 1);
    BitOfShr(0x2a1462b3, 5, 6); BitOfShr(0x150a315, 5, 1);
    ShiftedGenerators();
    SmallGeneratorBits();
  }

  lemma ShiftedGenerators()
    ensures Shr(0x3b6a57b2, 5) == 0x1db52bd && Shr(0x1db52bd, 5) == 0xeda95
    ensures Shr(0x1ea119fa, 5) == 0xf508cf && Shr(0xf508cf, 5) == 0x7a846
    ensures Shr(0x2a1462b3, 5) == 0x150a315 && Shr(0x150a315, 5) == 0xa8518
  {
  }

  lemma SmallGeneratorBits()
    ensures !Bit(0xeda95, 1) && Bit(0x7a846, 1) && !Bit(0xa8518, 1)
  {
  }

  lemma {:induction false} BitOfLow(a: nat, k: nat, j: nat)
    ensures Bit(Low(a, k), j) == (j < k && Bit(a, j))
  {
    if k == 0 {
      NoBitsInZero(j);
    } else {
      LowHalves(a, k);
      if j != 0 {
        BitOfLow(a / 2, k - 1, j - 1);
      }
    }
  }

  lemma TopOfConstant()
    ensures Shr(0x2bc830a3, 25) == 21
  {
    ShrTwice(0x2bc830a3, 5, 20);
    ShrTwice(0x15e4185, 5, 15);
    ShrTwice(0xaf20c, 5, 10);
    ShrTwice(0x5790, 5, 5);
    assert Shr(0x2bc830a3, 5) == 0x15e4185;
    assert Shr(0x15e4185, 5) == 0xaf20c;
    assert Shr(0xaf20c, 5) == 0x5790;
    assert Shr(0x5790, 5) == 0x2bc;
    assert Shr(0x2bc, 5) == 21;
  }

  /** The Bech32m constant, whatever its last symbol, is not a fixed point of shifting in a zero. */
  lemma Bech32mMoves(c: symbol)
    ensures Round(Xor(0x2bc830a3, c), 0) != Xor(0x2bc830a3, c)
  {
    hide Xor, Bit, Low, Shr, Shl, Feedback, Round;
    var t := Xor(0x2bc830a3, c);
    Pow2Values();
    Pow2Monotone(5, 25);
    XorShr(0x2bc830a3, c, 25);
    LowOfSmall(c, 25);
    TopOfConstant();
    XorZero(21);
    ConstantBits();
    SmallBits();
    GeneratorBit11();
    RoundBit(t, 11);
    FeedbackBit(21, 11);
    BitOfLow(t, 25, 6);
    XorBit(0x2bc830a3, c, 6);
    XorBit(0x2bc830a3, c, 11);
    BitAbove(c, 5, 6);
    BitAbove(c, 5, 11);
  }

  /** For Bech32 the only fixed point is reached with the last symbol 1. */
  lemma Bech32Moves(c: symbol)
    ensures Round(Xor(1, c), 0) == Xor(1, c) <==> c == 1
  {
    hide Xor, Bit, Low, Shr, Shl, Feedback, Round;
    var t := Xor(1, c);
    Pow2Values();
    XorBelow(1, c, 5);
    LowOfSmall(t, 25);
    RoundWithoutFeedback(t);
    XorZeroIffEqual(1, c);
    ShlGrows(t, 5);
    ShlZero(t, 5);
  }

  lemma {:induction false} ShlGrows(t: nat, k: nat)
    ensures Shl(t, k) >= t && (k != 0 && t != 0 ==> Shl(t, k) > t)
  {
    if k == 0 {
    } else {
      ShlGrows(t, k - 1);
    }
  }

  /**
   Inserting a zero symbol (the character q) just before the last symbol of a valid string goes
   undetected exactly for Bech32 strings that end in the symbol 1 (the character p); Bech32m always
   detects it.
   */
  lemma InsertionDetected(values: seq<nat>, c: symbol, spec: Spec)
    requires Polymod(1, values + [c]) == SpecConstant(spec)
    ensures Polymod(1, values + [0, c]) == SpecConstant(spec) <==> spec == Bech32 && c == 1
  {
    hide Xor, Round, Polymod;
    var s := Polymod(1, values);
    var t := Round(s, 0);
    PolymodAppend(1, values, [c]);
    PolymodOne(s, c);
    RoundSplits(s, c);
    assert values + [0, c] == values + [0] + [c];
    PolymodAppend(1, values + [0], [c]);
    PolymodAppend(1, values, [0]);
    PolymodOne(s, 0);
    PolymodOne(t, c);
    RoundSplits(t, c);
    // t == constant ^ c, and the insertion is undetected iff t is a fixed point
    var const_ := SpecConstant(spec);
    XorCommutes(t, c);
    XorEquation(c, t, const_);
    XorCommutes(c, const_);
    XorCommutes(Round(t, 0), c);
    XorEquation(c, Round(t, 0), const_);
    if spec == Bech32 {
      Bech32Moves(c);
    } else {
      Bech32mMoves(c);
    }
  }
}
