/** Lists of fixed-width numbers read as one stream of bits, the most significant bit first. */
module BitStream {
  import opened Bitwise

  /** The last `w` bits of x. */
  function ToBits(x: int, w: nat): (bits: seq<bool>)
    ensures |bits| == w
    decreases w
  {
    if w == 0 then [] else ToBits(x / 2, w - 1) + [x % 2 == 1]
  }

  function Stream(data: seq<int>, w: nat): seq<bool> {
    if data == [] then [] else Stream(data[..|data| - 1], w) + ToBits(data[|data| - 1], w)
  }

  function Zeros(k: nat): (bits: seq<bool>)
    ensures |bits| == k && forall i :: 0 <= i < k ==> !bits[i]
  {
    seq(k, _ => false)
  }

  predicate InRange(data: seq<int>, w: nat) {
    forall i :: 0 <= i < |data| ==> 0 <= data[i] < Pow2(w)
  }

  lemma StreamAppend(data: seq<int>, x: int, w: nat)
    ensures Stream(data + [x], w) == Stream(data, w) + ToBits(x, w)
  {
    assert (data + [x])[..|data|] == data;
  }

  lemma {:induction false} StreamJoin(a: seq<int>, b: seq<int>, w: nat)
    ensures Stream(a + b, w) == Stream(a, w) + Stream(b, w)
    decreases |b|
  {
    hide ToBits;
    if b == [] {
      assert a + b == a;
    } else {
      var front, last := b[..|b| - 1], b[|b| - 1];
      assert a + b == (a + front) + [last];
      StreamAppend(a + front, last, w);
      StreamJoin(a, front, w);
    }
  }

  /** The bits of two numbers written one after the other. */
  lemma {:induction false} ToBitsJoin(x: nat, y: nat, w: nat, k: nat)
    requires y < Pow2(k)
    ensures ToBits(x * Pow2(k) + y, w + k) == ToBits(x, w) + ToBits(y, k)
    decreases k
  {
    if k == 0 {
    } else {
      assert x * Pow2(k) == 2 * (x * Pow2(k - 1));
      ToBitsJoin(x, y / 2, w, k - 1);
    }
  }

  lemma {:induction false} StreamLength(data: seq<int>, w: nat)
    ensures |Stream(data, w)| == w * |data|
  {
    hide ToBits;
    if data == [] {
    } else {
      StreamLength(data[..|data| - 1], w);
      MulSucc(w, |data|);
    }
  }

  lemma {:induction false} ToBitsInjective(x: int, y: int, w: nat)
    requires 0 <= x < Pow2(w) && 0 <= y < Pow2(w)
    requires ToBits(x, w) == ToBits(y, w)
    ensures x == y
  {
    if w == 0 {
    } else {
      var a, b := ToBits(x, w), ToBits(y, w);
      assert a[..w - 1] == ToBits(x / 2, w - 1) && b[..w - 1] == ToBits(y / 2, w - 1);
      assert a[w - 1] == (x % 2 == 1) && b[w - 1] == (y % 2 == 1);
      ToBitsInjective(x / 2, y / 2, w - 1);
    }
  }

  lemma {:induction false} StreamInjective(a: seq<int>, b: seq<int>, w: nat)
    requires InRange(a, w) && InRange(b, w) && |a| == |b| && Stream(a, w) == Stream(b, w)
    ensures a == b
    decreases |a|
  {
    if a == [] {
    } else {
      var n := |a| - 1;
      StreamLength(a[..n], w);
      StreamLength(b[..n], w);
      assert Stream(a, w)[w * n..] == ToBits(a[n], w) && Stream(b, w)[w * n..] == ToBits(b[n], w);
      assert Stream(a, w)[..w * n] == Stream(a[..n], w) && Stream(b, w)[..w * n] == Stream(b[..n], w);
      ToBitsInjective(a[n], b[n], w);
      StreamInjective(a[..n], b[..n], w);
      assert a == a[..n] + [a[n]] && b == b[..n] + [b[n]];
    }
  }

  /** Splitting a number at bit b splits its bits. */
  lemma {:induction false} ToBitsSplit(x: nat, high: nat, b: nat)
    ensures ToBits(x, high + b) == ToBits(Shr(x, b), high) + ToBits(x, b)
  {
    if b == 0 {
    } else {
      ToBitsSplit(x / 2, high, b - 1);
    }
  }

  lemma {:induction false} ToBitsLow(x: nat, k: nat, w: nat)
    requires w <= k
    ensures ToBits(Low(x, k), w) == ToBits(x, w)
  {
    if w == 0 {
    } else {
      LowHalves(x, k);
      ToBitsLow(x / 2, k - 1, w - 1);
    }
  }

  lemma {:induction false} ToBitsOfShl(x: nat, k: nat, w: nat)
    ensures ToBits(Shl(x, k), w + k) == ToBits(x, w) + Zeros(k)
  {
    if k == 0 {
      assert Zeros(0) == [];
    } else {
      ToBitsOfShl(x, k - 1, w);
      assert Zeros(k) == Zeros(k - 1) + [false];
    }
  }

  lemma {:induction false} NoTrueBits(x: nat, w: nat)
    ensures ToBits(x, w) == Zeros(w) <==> Low(x, w) == 0
  {
    if w != 0 {
      NoTrueBits(x / 2, w - 1);
      LowHalves(x, w);
      var b := ToBits(x, w);
      assert b[..w - 1] == ToBits(x / 2, w - 1) && b[w - 1] == (x % 2 == 1);
      assert Zeros(w)[..w - 1] == Zeros(w - 1);
      assert ToBits(x / 2, w - 1) == Zeros(w - 1) && x % 2 == 0 ==> b == Zeros(w);
    } else {
      assert Zeros(0) == [];
    }
  }
}

/** convertbits of scratch/calc_bech32m.py: regrouping a list of numbers into another width. */
module ConvertBits {
  import opened Bitwise
  import opened BitStream
  import opened Prelude

  /** A value the function refuses: negative, or too wide. */
  predicate Refused(v: int, frombits: nat) {
    v < 0 || Shr(v, frombits) != 0
  }

  predicate Accepted(data: seq<int>, frombits: nat) {
    forall i :: 0 <= i < |data| ==> !Refused(data[i], frombits)
  }

  /** The stream of `wide` is the stream of `narrow` and k zero bits. */
  ghost predicate Padded(narrow: seq<int>, n: nat, wide: seq<int>, w: nat, k: nat) {
    Stream(wide, w) == Stream(narrow, n) + Zeros(k)
  }

  /** The meaning of convertbits with padding: fill up with fewer than `tobits` zeros. */
  ghost predicate IsPaddedConversion(data: seq<int>, frombits: nat, tobits: nat, result: Option<seq<int>>) {
    && (result.None? <==> !Accepted(data, frombits))
    && (result.Some? ==>
          && InRange(result.value, tobits)
          && exists k :: 0 <= k < tobits && Padded(data, frombits, result.value, tobits, k))
  }

  /** `out` together with fewer zero bits than a symbol of either width makes up `data`. */
  ghost predicate Strips(data: seq<int>, frombits: nat, tobits: nat, out: seq<int>) {
    InRange(out, tobits) && exists k :: 0 <= k < tobits && k < frombits && Padded(out, tobits, data, frombits, k)
  }

  /** The meaning of convertbits without padding: strip zeros, and refuse when that is impossible. */
  ghost predicate IsStrictConversion(data: seq<int>, frombits: nat, tobits: nat, result: Option<seq<int>>) {
    && (result.Some? ==> Accepted(data, frombits) && Strips(data, frombits, tobits, result.value))
    && (result.None? ==> !Accepted(data, frombits) || forall out :: !Strips(data, frombits, tobits, out))
  }

  /** One step of the inner loop: emit the upper `tobits` of the buffered bits. */
  lemma EmitSymbol(acc: nat, bits: nat, tobits: nat)
    requires bits >= tobits
    ensures ToBits(acc, bits) == ToBits(Low(Shr(acc, bits - tobits), tobits), tobits) + ToBits(acc, bits - tobits)
    ensures Low(Shr(acc, bits - tobits), tobits) < Pow2(tobits)
  {
    ToBitsSplit(acc, tobits, bits - tobits);
    ToBitsLow(Shr(acc, bits - tobits), tobits, tobits);
    LowBound(Shr(acc, bits - tobits), tobits);
  }

  /** One step of the outer loop: a value enters the buffer from the right. */
  lemma BufferValue(acc: nat, bits: nat, value: nat, frombits: nat, keep: nat)
    requires Shr(value, frombits) == 0 && bits + frombits <= keep
    ensures ToBits(Low(Or(Shl(acc, frombits), value), keep), bits + frombits) ==
              ToBits(acc, bits) + ToBits(value, frombits)
  {
    hide Or, Shr, Shl, Low;
    var joined := Or(Shl(acc, frombits), value);
    ToBitsLow(joined, keep, bits + frombits);
    SmallFromShr(value, frombits);
    OrDisjoint(acc, value, frombits);
    JoinSplit(acc, value, frombits);
    ToBitsSplit(joined, bits, frombits);
    ToBitsLow(joined, frombits, frombits);
    ToBitsLow(value, frombits, frombits);
    LowOfSmall(value, frombits);
  }

  lemma SmallFromShr(a: nat, k: nat)
    requires Shr(a, k) == 0
    ensures a < Pow2(k)
  {
    hide Shr, Low;
    SplitJoin(a, k);
    ShlZero(0, k);
    LowBound(a, k);
  }

  method Convert(data: seq<int>, frombits: nat, tobits: nat, pad: bool) returns (result: Option<seq<int>>)
    requires frombits >= 1 && tobits >= 1
    ensures pad ==> IsPaddedConversion(data, frombits, tobits, result)
    ensures !pad ==> IsStrictConversion(data, frombits, tobits, result)
  {
    hide Stream, ToBits, Or, Shl, Shr, Low, Pow2, Strips, Padded;
    var acc: nat, bits: nat := 0, 0;
    var ret: seq<int> := [];
    StreamEmpty(frombits);
    StreamEmpty(tobits);
    for i := 0 to |data|
      invariant bits < tobits
      invariant Accepted(data[..i], frombits)
      invariant InRange(ret, tobits)
      invariant Stream(ret, tobits) + ToBits(acc, bits) == Stream(data[..i], frombits)
    {
      var value := data[i];
      assert data[..i + 1] == data[..i] + [value];
      if value < 0 || Shr(value, frombits) != 0 {
        assert Refused(data[i], frombits);
        return None;
      }
      BufferValue(acc, bits, value, frombits, frombits + tobits - 1);
      StreamAppend(data[..i], value, frombits);
      ghost var before := Stream(ret, tobits) + (ToBits(acc, bits) + ToBits(value, frombits));
      acc := Low(Or(Shl(acc, frombits), value), frombits + tobits - 1);
      bits := bits + frombits;
      assert before == Stream(data[..i + 1], frombits);
      while bits >= tobits
        invariant InRange(ret, tobits)
        invariant Stream(ret, tobits) + ToBits(acc, bits) == Stream(data[..i + 1], frombits)
        decreases bits
      {
        EmitSymbol(acc, bits, tobits);
        ghost var whole := Stream(ret, tobits) + ToBits(acc, bits);
        bits := bits - tobits;
        var symbol := Low(Shr(acc, bits), tobits);
        StreamAppend(ret, symbol, tobits);
        ret := ret + [symbol];
        assert Stream(ret, tobits) + ToBits(acc, bits) == whole;
      }
    }
    assert data[..|data|] == data;
    var last := Low(Shl(acc, tobits - bits), tobits);
    LastSymbol(acc, bits, tobits);
    if pad {
      if bits != 0 {
        FinishPadded(data, frombits, tobits, ret, acc, bits);
        ret := ret + [last];
      } else {
        FinishExact(data, frombits, tobits, ret, acc);
      }
      return Some(ret);
    } else {
      FinishStrict(data, frombits, tobits, ret, acc, bits);
      if bits >= frombits || last != 0 {
        return None;
      }
      return Some(ret);
    }
  }

  lemma StreamEmpty(w: nat)
    ensures Stream([], w) == [] && ToBits(0, 0) == []
  {
  }

  /** The final symbol holds the buffered bits, filled up with zeros. */
  lemma LastSymbol(acc: nat, bits: nat, tobits: nat)
    requires bits < tobits
    ensures var last := Low(Shl(acc, tobits - bits), tobits);
            && last < Pow2(tobits)
            && ToBits(last, tobits) == ToBits(acc, bits) + Zeros(tobits - bits)
            && (last == 0 <==> ToBits(acc, bits) == Zeros(bits))
  {
    hide Low, Shl, ToBits;
    var k := tobits - bits;
    LowBound(Shl(acc, k), tobits);
    ToBitsLow(Shl(acc, k), tobits, tobits);
    ToBitsOfShl(acc, k, bits);
    NoTrueBits(Shl(acc, k), tobits);
    var all := ToBits(acc, bits) + Zeros(k);
    assert all[..bits] == ToBits(acc, bits) && all[bits..] == Zeros(k);
    assert Zeros(tobits)[..bits] == Zeros(bits);
    assert Zeros(tobits) == Zeros(bits) + Zeros(k);
  }

  lemma FinishPadded(data: seq<int>, frombits: nat, tobits: nat, ret: seq<int>, acc: nat, bits: nat)
    requires 0 < bits < tobits
    requires Stream(ret, tobits) + ToBits(acc, bits) == Stream(data, frombits)
    ensures Padded(data, frombits, ret + [Low(Shl(acc, tobits - bits), tobits)], tobits, tobits - bits)
  {
    hide Low, Shl, ToBits, Stream;
    LastSymbol(acc, bits, tobits);
    StreamAppend(ret, Low(Shl(acc, tobits - bits), tobits), tobits);
    assert Stream(ret, tobits) + (ToBits(acc, bits) + Zeros(tobits - bits)) ==
             Stream(data, frombits) + Zeros(tobits - bits);
  }

  lemma FinishExact(data: seq<int>, frombits: nat, tobits: nat, ret: seq<int>, acc: nat)
    requires Stream(ret, tobits) + ToBits(acc, 0) == Stream(data, frombits)
    ensures Padded(data, frombits, ret, tobits, 0)
  {
    hide Stream;
    assert Stream(data, frombits) + Zeros(0) == Stream(data, frombits) == Stream(ret, tobits);
  }

  /** At the end of the strict direction, exactly the emitted symbols can be what was padded. */
  lemma FinishStrict(data: seq<int>, frombits: nat, tobits: nat, ret: seq<int>, acc: nat, bits: nat)
    requires bits < tobits && InRange(ret, tobits)
    requires Stream(ret, tobits) + ToBits(acc, bits) == Stream(data, frombits)
    ensures bits < frombits && ToBits(acc, bits) == Zeros(bits) ==> Strips(data, frombits, tobits, ret)
    ensures !(bits < frombits && ToBits(acc, bits) == Zeros(bits)) ==>
              forall out :: !Strips(data, frombits, tobits, out)
  {
    hide ToBits, Stream;
    if bits < frombits && ToBits(acc, bits) == Zeros(bits) {
      assert Padded(ret, tobits, data, frombits, bits);
    }
    forall out | Strips(data, frombits, tobits, out)
      ensures bits < frombits && ToBits(acc, bits) == Zeros(bits)
    {
      var k :| 0 <= k < tobits && k < frombits && Padded(out, tobits, data, frombits, k);
      StreamLength(out, tobits);
      StreamLength(ret, tobits);
      SameQuotient(tobits, |out|, k, |ret|, bits);
      assert Stream(data, frombits)[tobits * |ret|..] == ToBits(acc, bits);
      assert Stream(data, frombits)[tobits * |out|..] == Zeros(k);
    }
  }

  lemma {:induction false} MulGap(w: nat, a: nat, b: nat)
    requires a < b
    ensures w * a + w <= w * b
  {
    if a + 1 < b {
      MulGap(w, a, b - 1);
    }
    MulSucc(w, b);
  }

  lemma SameQuotient(w: nat, a: nat, k: nat, b: nat, j: nat)
    requires k < w && j < w && w * a + k == w * b + j
    ensures a == b && k == j
  {
    if a < b {
      MulGap(w, a, b);
    } else if b < a {
      MulGap(w, b, a);
    }
  }

  // ---------- Round trips ----------

  /**
   Padding and then stripping is the identity on every list of numbers of the wider kind: for 8 and 5,
   on every list of bytes.
   */
  lemma DecodeEncoded(data: seq<int>, wide: nat, narrow: nat, encoded: seq<int>, decoded: Option<seq<int>>)
    requires 1 <= narrow <= wide && InRange(data, wide)
    requires IsPaddedConversion(data, wide, narrow, Some(encoded))
    requires IsStrictConversion(encoded, narrow, wide, decoded)
    ensures decoded == Some(data)
  {
    hide Stream, Low, Shr, Shl;
    var k :| 0 <= k < narrow && Padded(data, wide, encoded, narrow, k);
    InRangeAccepted(encoded, narrow);
    assert Strips(encoded, narrow, wide, data);
    var out := decoded.value;
    var j :| 0 <= j < wide && j < narrow && Padded(out, wide, encoded, narrow, j);
    StreamLength(data, wide);
    StreamLength(out, wide);
    SameQuotient(wide, |data|, k, |out|, j);
    assert (Stream(data, wide) + Zeros(k))[..wide * |data|] == Stream(data, wide);
    assert (Stream(out, wide) + Zeros(k))[..wide * |data|] == Stream(out, wide);
    StreamInjective(data, out, wide);
  }

  /** Whatever the strict direction accepts, the padding direction reproduces. */
  lemma EncodeDecoded(symbols: seq<int>, narrow: nat, wide: nat, decoded: seq<int>, encoded: Option<seq<int>>)
    requires 1 <= narrow <= wide
    requires IsStrictConversion(symbols, narrow, wide, Some(decoded))
    requires IsPaddedConversion(decoded, wide, narrow, encoded)
    ensures encoded == Some(symbols)
  {
    hide Stream, Low, Shr, Shl;
    var k :| 0 <= k < wide && k < narrow && Padded(decoded, wide, symbols, narrow, k);
    InRangeAccepted(decoded, wide);
    var out := encoded.value;
    var j :| 0 <= j < narrow && Padded(decoded, wide, out, narrow, j);
    StreamLength(symbols, narrow);
    StreamLength(out, narrow);
    StreamLength(decoded, wide);
    SameCeiling(narrow, wide * |decoded|, |symbols|, k, |out|, j);
    AcceptedInRange(symbols, narrow);
    StreamInjective(symbols, out, narrow);
  }

  lemma SameCeiling(w: nat, n: nat, a: nat, k: nat, b: nat, j: nat)
    requires k < w && j < w && w * a == n + k && w * b == n + j
    ensures a == b && k == j
  {
    if a < b {
      MulGap(w, a, b);
    } else if b < a {
      MulGap(w, b, a);
    }
  }

  lemma InRangeAccepted(data: seq<int>, w: nat)
    requires InRange(data, w)
    ensures Accepted(data, w)
  {
    hide Shr, Low;
    forall i | 0 <= i < |data|
      ensures !Refused(data[i], w)
    {
      LowOfSmall(data[i], w);
    }
  }

  lemma AcceptedInRange(data: seq<int>, w: nat)
    requires Accepted(data, w)
    ensures InRange(data, w)
  {
    hide Shr;
    forall i | 0 <= i < |data|
      ensures 0 <= data[i] < Pow2(w)
    {
      assert !Refused(data[i], w);
      SmallFromShr(data[i], w);
    }
  }
}
