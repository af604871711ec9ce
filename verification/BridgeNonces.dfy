/** The nonce bitmap of chain/x/bridge/keeper.go: words of 256 bits in the key-value store. */
module BridgeNonces {
  import opened Bitwise
  import opened Order
  import opened BridgeTypes

  /** A stored value, after decoding. */
  datatype Value =
    | Word(bytes: Bytes)
    | Minted(amount: int)
    | RelayerEntry(relayer: Relayer)
    | ParamsEntry(params: Params)

  type Store = map<Bytes, Value>

  // ---------- Big-endian numbers ----------

  /** big.Int.SetBytes */
  function FromBytes(b: Bytes): nat {
    if b == [] then 0 else 256 * FromBytes(b[..|b| - 1]) + b[|b| - 1]
  }

  /** big.Int.Bytes: no leading zero, and nothing at all for zero. */
  function ToBytes(n: nat): Bytes {
    if n == 0 then [] else ToBytes(n / 256) + [n % 256]
  }

  lemma {:induction false} BytesRoundTrip(n: nat)
    ensures FromBytes(ToBytes(n)) == n
  {
    if n == 0 {
    } else {
      BytesRoundTrip(n / 256);
      assert ToBytes(n)[..|ToBytes(n)| - 1] == ToBytes(n / 256);
    }
  }

  // ---------- One bit of a word ----------

  function WordIndex(nonce: nat): nat {
    nonce / 256
  }

  function Mask(nonce: nat): nat {
    Shl(1, nonce % 256)
  }

  function NonceKey(index: nat): Bytes {
    [NONCE_PREFIX] + ToBytes(index)
  }

  lemma NonceKeyInjective(i: nat, j: nat)
    ensures NonceKey(i) == NonceKey(j) <==> i == j
  {
    BytesRoundTrip(i);
    BytesRoundTrip(j);
    assert NonceKey(i)[1..] == ToBytes(i) && NonceKey(j)[1..] == ToBytes(j);
  }

  lemma {:induction false} BitOfOne(k: nat, i: nat)
    ensures Bit(Shl(1, k), i) <==> i == k
  {
    if k != 0 && i != 0 {
      BitOfOne(k - 1, i - 1);
    } else if i != 0 {
      NoBitsInZero(i - 1);
    }
  }

  lemma {:induction false} BitOfOr(a: nat, b: nat, i: nat)
    ensures Bit(Or(a, b), i) <==> Bit(a, i) || Bit(b, i)
    decreases i
  {
    OrHalves(a, b);
    if i == 0 {
    } else {
      BitOfOr(a / 2, b / 2, i - 1);
    }
  }

  lemma OrHalves(a: nat, b: nat)
    ensures Or(a, b) / 2 == Or(a / 2, b / 2)
    ensures Or(a, b) % 2 == 1 <==> a % 2 == 1 || b % 2 == 1
  {
  }

  /** Masking with a single bit tests that bit. */
  lemma {:induction false} AndMask(word: nat, k: nat)
    ensures And(word, Shl(1, k)) != 0 <==> Bit(word, k)
    decreases k
  {
    ShlPositive(k);
    if k == 0 {
      assert And(word / 2, 0) == 0;
    } else {
      if word == 0 {
        NoBitsInZero(k);
      } else {
        AndMask(word / 2, k - 1);
      }
    }
  }

  lemma {:induction false} ShlPositive(k: nat)
    ensures Shl(1, k) >= 1
  {
    if k == 0 {
    } else {
      ShlPositive(k - 1);
    }
  }

  // ---------- The bitmap ----------

  /** The word stored for an index; an absent word counts as zero. */
  function StoredWord(store: Store, index: nat): nat {
    if NonceKey(index) in store && store[NonceKey(index)].Word? then FromBytes(store[NonceKey(index)].bytes) else 0
  }

  /** The set of naturals that the bitmap stands for. */
  ghost predicate Processed(store: Store, n: nat) {
    Bit(StoredWord(store, WordIndex(n)), n % 256)
  }

  /** IsNonceProcessed */
  predicate IsNonceProcessed(store: Store, nonce: Bytes) {
    And(StoredWord(store, WordIndex(FromBytes(nonce))), Mask(FromBytes(nonce))) != 0
  }

  /** SetNonceProcessed */
  function SetNonceProcessed(store: Store, nonce: Bytes): Store {
    var n := FromBytes(nonce);
    var word := Or(StoredWord(store, WordIndex(n)), Mask(n));
    store[NonceKey(WordIndex(n)) := Word(ToBytes(word))]
  }

  lemma ProcessedIsTested(store: Store, nonce: Bytes)
    ensures IsNonceProcessed(store, nonce) <==> Processed(store, FromBytes(nonce))
  {
    hide And, Bit, Shl;
    AndMask(StoredWord(store, WordIndex(FromBytes(nonce))), FromBytes(nonce) % 256);
  }

  lemma SameWordSameBit(m: nat, n: nat)
    requires m / 256 == n / 256 && m % 256 == n % 256
    ensures m == n
  {
  }

  /** Setting a nonce adds exactly that number to the set and touches no other key. */
  lemma SetAddsExactlyOne(store: Store, nonce: Bytes, m: nat)
    ensures Processed(SetNonceProcessed(store, nonce), m) <==> m == FromBytes(nonce) || Processed(store, m)
    ensures forall key :: key in SetNonceProcessed(store, nonce) && key !in store ==>
              |key| >= 1 && key[0] == NONCE_PREFIX
    ensures forall key :: key in store ==> key in SetNonceProcessed(store, nonce)
    ensures forall key :: key in store && (key == [] || key[0] != NONCE_PREFIX) ==>
              SetNonceProcessed(store, nonce)[key] == store[key]
  {
    hide Or, Bit, Shl, ToBytes, FromBytes;
    var n := FromBytes(nonce);
    var word := Or(StoredWord(store, WordIndex(n)), Mask(n));
    NonceKeyInjective(WordIndex(m), WordIndex(n));
    BytesRoundTrip(word);
    BitOfOr(StoredWord(store, WordIndex(n)), Mask(n), m % 256);
    BitOfOne(n % 256, m % 256);
    if m / 256 == n / 256 && m % 256 == n % 256 {
      SameWordSameBit(m, n);
    }
  }

  /** NonceBitmapInvariant: no stored word is empty or zero. */
  ghost predicate BitmapSound(store: Store) {
    forall key :: key in store && key != [] && key[0] == NONCE_PREFIX ==>
                    store[key].Word? && store[key].bytes != [] && FromBytes(store[key].bytes) != 0
  }

  lemma SetKeepsBitmapSound(store: Store, nonce: Bytes)
    requires BitmapSound(store)
    ensures BitmapSound(SetNonceProcessed(store, nonce))
  {
    hide Or, Bit, Shl, ToBytes, FromBytes;
    var n := FromBytes(nonce);
    var word := Or(StoredWord(store, WordIndex(n)), Mask(n));
    BitOfOr(StoredWord(store, WordIndex(n)), Mask(n), n % 256);
    BitOfOne(n % 256, n % 256);
    NoBitsInZero(n % 256);
    BytesRoundTrip(word);
    EmptyBytes();
  }

  lemma EmptyBytes()
    ensures FromBytes([]) == 0
  {
  }
}
