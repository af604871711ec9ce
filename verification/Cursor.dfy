/** The opaque page cursor of backend/module/api/main.go: base64 of "height,id". */
module Cursor {
  import opened BitStream
  import opened Bitwise
  import opened ConvertBits
  import opened Order
  import opened Prelude

  // ---------- Base64, standard alphabet ----------

  function Symbol(i: nat): byte
    requires i < 64
  {
    if i < 26 then 65 + i
    else if i < 52 then 97 + (i - 26)
    else if i < 62 then 48 + (i - 52)
    else if i == 62 then 43 else 47
  }

  function SymbolValue(c: byte): Option<nat> {
    if 65 <= c <= 90 then Some(c - 65)
    else if 97 <= c <= 122 then Some(c - 97 + 26)
    else if 48 <= c <= 57 then Some(c - 48 + 52)
    else if c == 43 then Some(62) else if c == 47 then Some(63) else None
  }

  const PAD: byte := '=' as int

  function Encode64(b: Bytes): Bytes
    decreases |b|
  {
    if b == [] then []
    else if |b| == 1 then [Symbol(b[0] / 4), Symbol(b[0] % 4 * 16), PAD, PAD]
    else if |b| == 2 then [Symbol(b[0] / 4), Symbol(b[0] % 4 * 16 + b[1] / 16), Symbol(b[1] % 16 * 4), PAD]
    else
      [Symbol(b[0] / 4), Symbol(b[0] % 4 * 16 + b[1] / 16), Symbol(b[1] % 16 * 4 + b[2] / 64), Symbol(b[2] % 64)]
      + Encode64(b[3..])
  }

  /** Line breaks are skipped by the decoder. */
  function WithoutBreaks(s: Bytes): Bytes
    decreases |s|
  {
    if s == [] then []
    else if s[0] == 10 || s[0] == 13 then WithoutBreaks(s[1..])
    else [s[0]] + WithoutBreaks(s[1..])
  }

  /** Groups of four; padding only closes the last group, and its unused bits are not checked. */
  function Groups(s: Bytes): Option<Bytes>
    decreases |s|
  {
    if s == [] then Some([])
    else if |s| < 4 then None
    else
      var v0, v1, v2, v3 := SymbolValue(s[0]), SymbolValue(s[1]), SymbolValue(s[2]), SymbolValue(s[3]);
      if v0.None? || v1.None? then None
      else if s[2] == PAD && s[3] == PAD && |s| == 4 then Some([Byte0(v0.value, v1.value)])
      else if v2.None? then None
      else if s[3] == PAD && |s| == 4 then Some([Byte0(v0.value, v1.value), Byte1(v1.value, v2.value)])
      else if v3.None? then None
      else
        match Groups(s[4..])
        case None => None
        case Some(rest) =>
          Some([Byte0(v0.value, v1.value), Byte1(v1.value, v2.value), Byte2(v2.value, v3.value)] + rest)
  }

  function Byte0(v0: nat, v1: nat): byte {
    (v0 * 4 + v1 / 16) % 256
  }

  function Byte1(v1: nat, v2: nat): byte {
    (v1 % 16 * 16 + v2 / 4) % 256
  }

  function Byte2(v2: nat, v3: nat): byte {
    (v2 % 4 * 64 + v3) % 256
  }

  function Decode64(s: Bytes): Option<Bytes> {
    Groups(WithoutBreaks(s))
  }

  lemma SymbolRoundTrip(i: nat)
    requires i < 64
    ensures SymbolValue(Symbol(i)) == Some(i) && Symbol(i) != PAD && Symbol(i) != 10 && Symbol(i) != 13
  {
  }

  /** Only the letters of the alphabet have a value. */
  lemma SymbolValueIff(c: byte, i: nat)
    requires i < 64
    ensures SymbolValue(c) == Some(i) <==> c == Symbol(i)
    ensures SymbolValue(c).Some? ==> SymbolValue(c).value < 64
  {
  }

  lemma FirstByte(a: byte, b: byte)
    ensures Byte0(a / 4, a % 4 * 16 + b / 16) == a
  {
  }

  lemma SecondByte(a: byte, b: byte, c: byte)
    ensures Byte1(a % 4 * 16 + b / 16, b % 16 * 4 + c / 64) == b
  {
    assert (a % 4 * 16 + b / 16) % 16 == b / 16;
    assert (b % 16 * 4 + c / 64) / 4 == b % 16;
  }

  lemma ThirdByte(b: byte, c: byte)
    ensures Byte2(b % 16 * 4 + c / 64, c % 64) == c
  {
  }

  lemma ByteRoundTrip(a: byte, b: byte, c: byte)
    ensures Byte0(a / 4, a % 4 * 16 + b / 16) == a
    ensures Byte1(a % 4 * 16 + b / 16, b % 16 * 4 + c / 64) == b
    ensures Byte2(b % 16 * 4 + c / 64, c % 64) == c
  {
    hide Byte0, Byte1, Byte2;
    FirstByte(a, b);
    SecondByte(a, b, c);
    ThirdByte(b, c);
  }

  lemma {:induction false} NoBreaksInEncoding(b: Bytes)
    ensures WithoutBreaks(Encode64(b)) == Encode64(b)
    decreases |b|
  {
    hide Symbol;
    if b == [] {
    } else {
      SymbolRoundTrip(b[0] / 4);
      SymbolRoundTrip(b[0] % 4 * 16);
      if |b| >= 2 {
        SymbolRoundTrip(b[0] % 4 * 16 + b[1] / 16);
        SymbolRoundTrip(b[1] % 16 * 4);
      }
      if |b| >= 3 {
        SymbolRoundTrip(b[1] % 16 * 4 + b[2] / 64);
        SymbolRoundTrip(b[2] % 64);
        NoBreaksInEncoding(b[3..]);
        var e := Encode64(b);
        KeepFour(e[0], e[1], e[2], e[3], Encode64(b[3..]));
      } else {
        var e := Encode64(b);
        KeepFour(e[0], e[1], e[2], e[3], []);
        assert e == [e[0], e[1], e[2], e[3]] + [];
      }
    }
  }

  lemma KeepFour(a: byte, b: byte, c: byte, d: byte, rest: Bytes)
    requires a != 10 && a != 13 && b != 10 && b != 13 && c != 10 && c != 13 && d != 10 && d != 13
    requires WithoutBreaks(rest) == rest
    ensures WithoutBreaks([a, b, c, d] + rest) == [a, b, c, d] + rest
  {
    KeepOne(d, rest);
    KeepOne(c, [d] + rest);
    KeepOne(b, [c] + ([d] + rest));
    KeepOne(a, [b] + ([c] + ([d] + rest)));
    assert [a, b, c, d] + rest == [a] + ([b] + ([c] + ([d] + rest)));
  }

  lemma KeepOne(a: byte, rest: Bytes)
    requires a != 10 && a != 13 && WithoutBreaks(rest) == rest
    ensures WithoutBreaks([a] + rest) == [a] + rest
  {
    assert ([a] + rest)[1..] == rest;
  }

  lemma {:induction false} GroupsRoundTrip(b: Bytes)
    ensures Groups(Encode64(b)) == Some(b)
    decreases |b|
  {
    hide Symbol, SymbolValue, Byte0, Byte1, Byte2;
    if |b| >= 3 {
      SymbolRoundTrip(b[0] / 4);
      SymbolRoundTrip(b[0] % 4 * 16 + b[1] / 16);
      SymbolRoundTrip(b[1] % 16 * 4 + b[2] / 64);
      SymbolRoundTrip(b[2] % 64);
      ByteRoundTrip(b[0], b[1], b[2]);
      GroupsRoundTrip(b[3..]);
      assert Encode64(b)[4..] == Encode64(b[3..]);
      assert b == [b[0], b[1], b[2]] + b[3..];
    } else if |b| == 2 {
      SymbolRoundTrip(b[0] / 4);
      SymbolRoundTrip(b[0] % 4 * 16 + b[1] / 16);
      SymbolRoundTrip(b[1] % 16 * 4);
      ByteRoundTrip(b[0], b[1], 0);
      assert b == [b[0], b[1]];
    } else if |b| == 1 {
      SymbolRoundTrip(b[0] / 4);
      SymbolRoundTrip(b[0] % 4 * 16);
      ByteRoundTrip(b[0], 0, 0);
      assert b == [b[0]];
    }
  }

  /** Decoding an encoding gives the bytes back. */
  lemma Base64RoundTrip(b: Bytes)
    ensures Decode64(Encode64(b)) == Some(b)
  {
    hide Groups, WithoutBreaks, Encode64;
    NoBreaksInEncoding(b);
    GroupsRoundTrip(b);
  }

  lemma {:induction false} BreaksVanish(a: Bytes, b: Bytes)
    ensures WithoutBreaks(a + b) == WithoutBreaks(a) + WithoutBreaks(b)
    decreases |a|
  {
    if a == [] {
      assert a + b == b;
    } else {
      assert (a + b)[0] == a[0] && (a + b)[1..] == a[1..] + b;
      BreaksVanish(a[1..], b);
    }
  }

  /** Line ends may stand anywhere in the text. */
  lemma LineEndsAreIgnored(a: Bytes, end: byte, b: Bytes)
    requires end == '\n' as int || end == '\r' as int
    ensures Decode64(a + [end] + b) == Decode64(a + b)
  {
    hide WithoutBreaks, Groups;
    BreaksVanish(a, b);
    BreaksVanish(a + [end], b);
    BreaksVanish(a, [end]);
    OneBreak(end);
    assert WithoutBreaks(a) + [] == WithoutBreaks(a);
  }

  lemma OneBreak(end: byte)
    requires end == '\n' as int || end == '\r' as int
    ensures WithoutBreaks([end]) == []
  {
  }

  // ---------- What the encoding is ----------

  const ALPHABET := "ABCDEFGHIJKLMNOPQRSTUVWXYZ" + "abcdefghijklmnopqrstuvwxyz" + "0123456789" + "+/"

  /** The six-bit values of an encoding. */
  function Sextets(b: Bytes): seq<int>
    decreases |b|
  {
    if b == [] then []
    else if |b| == 1 then [b[0] / 4, b[0] % 4 * 16]
    else if |b| == 2 then [b[0] / 4, b[0] % 4 * 16 + b[1] / 16, b[1] % 16 * 4]
    else Sextet4(b[0], b[1], b[2]) + Sextets(b[3..])
  }

  function Sextet4(a: byte, b: byte, c: byte): (values: seq<int>)
    ensures |values| == 4
  {
    [a / 4, a % 4 * 16 + b / 16, b % 16 * 4 + c / 64, c % 64]
  }

  lemma SmallPowers()
    ensures Pow2(2) == 4 && Pow2(4) == 16 && Pow2(6) == 64
  {
  }

  lemma SplitBytes(a: nat, b: nat, c: nat)
    ensures ToBits(a, 8) == ToBits(a / 4, 6) + ToBits(a % 4, 2)
    ensures ToBits(b, 8) == ToBits(b / 16, 4) + ToBits(b % 16, 4)
    ensures ToBits(c, 8) == ToBits(c / 64, 2) + ToBits(c % 64, 6)
  {
    hide ToBits, Pow2;
    SmallPowers();
    ToBitsJoin(a / 4, a % 4, 6, 2);
    ToBitsJoin(b / 16, b % 16, 4, 4);
    ToBitsJoin(c / 64, c % 64, 2, 6);
  }

  lemma JoinSextets(a: nat, b: byte, c: byte)
    ensures ToBits(a % 4 * 16 + b / 16, 6) == ToBits(a % 4, 2) + ToBits(b / 16, 4)
    ensures ToBits(b % 16 * 4 + c / 64, 6) == ToBits(b % 16, 4) + ToBits(c / 64, 2)
  {
    hide ToBits, Pow2;
    SmallPowers();
    ToBitsJoin(a % 4, b / 16, 2, 4);
    ToBitsJoin(b % 16, c / 64, 4, 2);
  }

  lemma StreamOfTwo(x: int, y: int, w: nat)
    ensures Stream([x], w) == ToBits(x, w) && Stream([x, y], w) == ToBits(x, w) + ToBits(y, w)
  {
    hide ToBits;
    assert [x, y][..1] == [x] && [x][..0] == [];
  }

  lemma StreamOfThree(x: int, y: int, z: int, w: nat)
    ensures Stream([x, y, z], w) == ToBits(x, w) + ToBits(y, w) + ToBits(z, w)
  {
    hide ToBits, Stream;
    StreamOfTwo(x, y, w);
    StreamAppend([x, y], z, w);
    assert [x, y] + [z] == [x, y, z];
  }

  lemma StreamOfFour(x: int, y: int, z: int, u: int, w: nat)
    ensures Stream([x, y, z, u], w) == ToBits(x, w) + ToBits(y, w) + ToBits(z, w) + ToBits(u, w)
  {
    hide ToBits, Stream;
    StreamOfThree(x, y, z, w);
    StreamAppend([x, y, z], u, w);
    assert [x, y, z] + [u] == [x, y, z, u];
  }

  /** Three bytes are the same bits as four six-bit numbers. */
  lemma GroupBits(a: byte, b: byte, c: byte)
    ensures Stream(Sextet4(a, b, c), 6) == Stream([a, b, c], 8)
  {
    hide ToBits, Stream;
    SplitBytes(a, b, c);
    JoinSextets(a, b, c);
    StreamOfThree(a, b, c, 8);
    StreamOfFour(a / 4, a % 4 * 16 + b / 16, b % 16 * 4 + c / 64, c % 64, 6);
  }

  lemma NoBits(k: nat)
    ensures ToBits(0, k) == Zeros(k)
  {
    NoTrueBits(0, k);
    LowOfSmall(0, k);
  }

  lemma LastTwoBits(a: byte, b: byte)
    ensures Padded([a, b], 8, [a / 4, a % 4 * 16 + b / 16, b % 16 * 4], 6, 2)
  {
    hide ToBits, Stream;
    SplitBytes(a, b, 0);
    JoinSextets(a, b, 0);
    StreamOfTwo(a, b, 8);
    StreamOfThree(a / 4, a % 4 * 16 + b / 16, b % 16 * 4, 6);
    NoBits(2);
  }

  lemma LastOneBits(a: byte)
    ensures Padded([a], 8, [a / 4, a % 4 * 16], 6, 4)
  {
    hide ToBits, Stream;
    SplitBytes(a, 0, 0);
    JoinSextets(a, 0, 0);
    StreamOfTwo(a, 0, 8);
    StreamOfTwo(a / 4, a % 4 * 16, 6);
    NoBits(4);
  }

  /** How many zero bits fill up the last six-bit value. */
  function FillBits(n: nat): nat {
    if n % 3 == 0 then 0 else if n % 3 == 1 then 4 else 2
  }

  lemma RegroupMore(bytes: Bytes, values: seq<int>, moreBytes: Bytes, moreValues: seq<int>, k: nat)
    requires Stream(values, 6) == Stream(bytes, 8) && Padded(moreBytes, 8, moreValues, 6, k)
    ensures Padded(bytes + moreBytes, 8, values + moreValues, 6, k)
  {
    hide Stream;
    StreamJoin(bytes, moreBytes, 8);
    StreamJoin(values, moreValues, 6);
  }

  lemma NothingRegroups()
    ensures Padded([], 8, [], 6, 0)
  {
    assert Zeros(0) == [];
  }

  lemma {:induction false} SextetsRegroup(b: Bytes)
    ensures Padded(b, 8, Sextets(b), 6, FillBits(|b|))
    decreases |b|
  {
    hide Stream, Padded, Sextet4;
    if b == [] {
      NothingRegroups();
    } else if |b| == 1 {
      LastOneBits(b[0]);
      assert b == [b[0]];
    } else if |b| == 2 {
      LastTwoBits(b[0], b[1]);
      assert b == [b[0], b[1]];
    } else {
      var rest := b[3..];
      GroupBits(b[0], b[1], b[2]);
      SextetsRegroup(rest);
      RegroupMore([b[0], b[1], b[2]], Sextet4(b[0], b[1], b[2]), rest, Sextets(rest), FillBits(|rest|));
      assert b == [b[0], b[1], b[2]] + rest;
    }
  }

  lemma {:induction false} SextetsInRange(b: Bytes)
    ensures forall i :: 0 <= i < |Sextets(b)| ==> 0 <= Sextets(b)[i] < 64
    decreases |b|
  {
    if |b| < 3 {
    } else {
      SextetsInRange(b[3..]);
    }
  }

  lemma SymbolIsLetter(i: nat)
    requires i < 64
    ensures |ALPHABET| == 64 && Symbol(i) == ALPHABET[i] as int
  {
    if i < 26 {
      assert ALPHABET[i] == "ABCDEFGHIJKLMNOPQRSTUVWXYZ"[i];
    } else if i < 52 {
      assert ALPHABET[i] == "abcdefghijklmnopqrstuvwxyz"[i - 26];
    } else {
      assert i < 62 ==> ALPHABET[i] == "0123456789"[i - 52];
    }
  }

  /** The values are written as letters of the alphabet, and = signs fill up the last four characters. */
  lemma {:induction false} EncodingSpells(b: Bytes)
    ensures var e, v := Encode64(b), Sextets(b);
            && |e| % 4 == 0 && |v| <= |e| < |v| + 4
            && (forall i :: 0 <= i < |v| ==> 0 <= v[i] < 64 && e[i] == Symbol(v[i]))
            && (forall i :: |v| <= i < |e| ==> e[i] == PAD)
    decreases |b|
  {
    hide Symbol;
    SextetsInRange(b);
    if |b| < 3 {
    } else {
      EncodingSpells(b[3..]);
    }
  }

  /**
   The encoding is base64 as RFC 4648, section 4, has it: the bits of the bytes, filled up with fewer than
   six zeros, cut into six-bit values, each written as its letter, and = signs up to a multiple of four.
   */
  lemma EncodingIsBase64(b: Bytes)
    ensures var e, v := Encode64(b), Sextets(b);
            && IsPaddedConversion(b, 8, 6, Some(v))
            && |e| % 4 == 0 && |v| <= |e| < |v| + 4
            && (forall i :: 0 <= i < |v| ==> 0 <= v[i] < 64 && e[i] == ALPHABET[v[i]] as int)
            && (forall i :: |v| <= i < |e| ==> e[i] == '=' as int)
  {
    hide Encode64, Sextets, Symbol, Padded;
    SextetsRegroup(b);
    SextetsInRange(b);
    EncodingSpells(b);
    BytePowers();
    InRangeAccepted(b, 8);
    SmallPowers();
    forall i | 0 <= i < |Sextets(b)|
      ensures Symbol(Sextets(b)[i]) == ALPHABET[Sextets(b)[i]] as int
    {
      SymbolIsLetter(Sextets(b)[i]);
    }
  }

  // ---------- Decimal numbers ----------

  const COMMA: byte := ',' as int
  const MINUS: byte := '-' as int
  const PLUS: byte := '+' as int

  predicate IsDigit(c: byte) {
    48 <= c <= 57
  }

  function Digits(n: nat): (d: Bytes)
    ensures d != []
  {
    if n < 10 then [48 + n] else Digits(n / 10) + [48 + n % 10]
  }

  function DigitsValue(d: Bytes): Option<nat>
    decreases |d|
  {
    if d == [] then None
    else if !IsDigit(d[|d| - 1]) then None
    else if |d| == 1 then Some(d[0] - 48)
    else
      match DigitsValue(d[..|d| - 1])
      case None => None
      case Some(high) => Some(10 * high + (d[|d| - 1] - 48))
  }

  /** %d */
  function Format(x: int): Bytes {
    if x < 0 then [MINUS] + Digits(-x) else Digits(x)
  }

  predicate IsInt64(x: int) {
    -0x8000_0000_0000_0000 <= x <= 0x7fff_ffff_ffff_ffff
  }

  /** strconv.ParseInt in base 10, for 64 bits. */
  function Parse(s: Bytes): Option<int> {
    if s == [] then None
    else
      var negative := s[0] == MINUS;
      var digits := if s[0] == MINUS || s[0] == PLUS then s[1..] else s;
      match DigitsValue(digits)
      case None => None
      case Some(n) =>
        var x: int := if negative then -(n as int) else n as int;
        if IsInt64(x) then Some(x) else None
  }

  lemma {:induction false} DigitsRoundTrip(n: nat)
    ensures DigitsValue(Digits(n)) == Some(n) && IsDigit(Digits(n)[0])
    ensures forall i :: 0 <= i < |Digits(n)| ==> IsDigit(Digits(n)[i])
  {
    if n >= 10 {
      DigitsRoundTrip(n / 10);
      var d := Digits(n);
      assert d[..|d| - 1] == Digits(n / 10) && d[|d| - 1] == 48 + n % 10;
    }
  }

  /** Writing a number and reading it back gives the number, or nothing beyond 64 bits. */
  lemma FormatRoundTrip(x: int)
    ensures Parse(Format(x)) == if -0x8000_0000_0000_0000 <= x < 0x8000_0000_0000_0000 then Some(x) else None
    ensures COMMA !in Format(x)
    ensures Format(x)[0] == '-' as int <==> x < 0
    ensures forall i :: (if x < 0 then 1 else 0) <= i < |Format(x)| ==> '0' as int <= Format(x)[i] <= '9' as int
  {
    hide Digits, DigitsValue;
    DigitsRoundTrip(if x < 0 then -x else x);
    if x < 0 {
      assert Format(x)[1..] == Digits(-x);
    }
  }

  /** What is read as a number is a sign or none, and digits: no other text is accepted. */
  lemma ParsedIsNumber(s: Bytes)
    requires Parse(s).Some?
    ensures |s| > 0 && (|s| == 1 ==> '0' as int <= s[0] <= '9' as int)
    ensures forall i :: 0 < i < |s| ==> '0' as int <= s[i] <= '9' as int
    ensures s[0] == '+' as int || s[0] == '-' as int || '0' as int <= s[0] <= '9' as int
    ensures s[0] == '-' as int ==> Parse(s).value <= 0
    ensures s[0] != '-' as int ==> Parse(s).value >= 0
  {
    hide DigitsValue;
    var signed := s[0] == MINUS || s[0] == PLUS;
    var digits := if signed then s[1..] else s;
    ValueOfDigits(digits);
    if signed {
      assert forall i :: 0 < i < |s| ==> s[i] == s[1..][i - 1];
    }
  }

  lemma {:induction false} ValueOfDigits(d: Bytes)
    requires DigitsValue(d).Some?
    ensures d != [] && forall i :: 0 <= i < |d| ==> IsDigit(d[i])
    decreases |d|
  {
    if |d| == 1 {
    } else {
      ValueOfDigits(d[..|d| - 1]);
    }
  }

  // ---------- The cursor ----------

  /** encodeCursor */
  function EncodeCursor(height: int, id: Bytes): Bytes {
    Encode64(Format(height) + [COMMA] + id)
  }

  function IndexOfComma(s: Bytes): Option<nat>
    decreases |s|
  {
    if s == [] then None
    else if s[0] == COMMA then Some(0)
    else
      match IndexOfComma(s[1..])
      case None => None
      case Some(i) => Some(i + 1)
  }

  lemma {:induction false} IndexOfCommaBound(s: Bytes)
    ensures IndexOfComma(s).Some? ==> IndexOfComma(s).value < |s|
    decreases |s|
  {
    if s == [] {
    } else {
      IndexOfCommaBound(s[1..]);
    }
  }

  lemma {:induction false} FirstComma(a: Bytes, b: Bytes)
    requires COMMA !in a
    ensures IndexOfComma(a + [COMMA] + b) == Some(|a|)
    decreases |a|
  {
    var s := a + [COMMA] + b;
    if a == [] {
    } else {
      FirstComma(a[1..], b);
      assert s[1..] == a[1..] + [COMMA] + b;
    }
  }

  /** decodeCursor: text that is not base64 is taken as it is. */
  function DecodeCursor(cursor: Bytes): Option<(int, Bytes)> {
    if cursor == [] then Some((0, []))
    else
      var decoded := Decode64(cursor).GetOr(cursor);
      match IndexOfComma(decoded)
      case None => None
      case Some(i) =>
        IndexOfCommaBound(decoded);
        match Parse(decoded[..i])
        case None => None
        case Some(height) => Some((height, decoded[i + 1..]))
  }

  /** A cursor decodes to the height and the ID it was made of, whatever bytes the ID contains. */
  lemma CursorRoundTrip(height: int, id: Bytes)
    requires IsInt64(height)
    ensures EncodeCursor(height, id) != [] && DecodeCursor(EncodeCursor(height, id)) == Some((height, id))
  {
    hide Decode64, Encode64, Parse, Format;
    var text := Format(height) + [COMMA] + id;
    Base64RoundTrip(text);
    EncodedNotEmpty(text);
    FormatRoundTrip(height);
    FirstComma(Format(height), id);
    assert text[..|Format(height)|] == Format(height) && text[|Format(height)| + 1..] == id;
  }

  lemma EncodedNotEmpty(b: Bytes)
    requires b != []
    ensures Encode64(b) != []
  {
  }
}
