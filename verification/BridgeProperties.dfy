/** What every run of bridge transactions keeps. */
module BridgeProperties {
  import opened Bitwise
  import opened Order
  import opened Prelude
  import opened BridgeTypes
  import opened BridgeNonces
  import opened BridgeLedger

  // ---------- Signatures ----------

  predicate Verifies(env: Environment, hash: Bytes, sig: Bytes, r: Relayer) {
    env.verifies(r.pubKey, hash, CleanSignature(sig))
  }

  /** Some signature of the message verifies under a key registered for this address. */
  ghost predicate HasSigned(env: Environment, hash: Bytes, sigs: seq<Bytes>, relayers: seq<Relayer>, a: Address) {
    exists i, j :: 0 <= i < |sigs| && 0 <= j < |relayers| && relayers[j].address == a &&
      Verifies(env, hash, sigs[i], relayers[j])
  }

  /** No signature verifies for two different addresses. */
  ghost predicate UniqueSigner(env: Environment, hash: Bytes, sigs: seq<Bytes>, relayers: seq<Relayer>) {
    forall i, j, k :: 0 <= i < |sigs| && 0 <= j < |relayers| && 0 <= k < |relayers| &&
                      Verifies(env, hash, sigs[i], relayers[j]) && Verifies(env, hash, sigs[i], relayers[k]) ==>
                        relayers[j].address == relayers[k].address
  }

  lemma {:induction false} FirstSignerMeaning(
      env: Environment, hash: Bytes, sig: Bytes, relayers: seq<Relayer>, signed: set<Address>)
    ensures var f := FirstSigner(env, hash, sig, relayers, signed);
            && (f.Some? ==> f.value !in signed)
            && (f.Some? ==>
                  exists j :: 0 <= j < |relayers| && relayers[j].address == f.value &&
                              Verifies(env, hash, sig, relayers[j]))
            && (f.None? ==>
                  forall j :: 0 <= j < |relayers| && Verifies(env, hash, sig, relayers[j]) ==>
                                relayers[j].address in signed)
    decreases |relayers|
  {
    if relayers == [] {
    } else {
      FirstSignerMeaning(env, hash, sig, relayers[1..], signed);
      var f := FirstSigner(env, hash, sig, relayers, signed);
      if relayers[0].address !in signed && Verifies(env, hash, sig, relayers[0]) {
        assert f == Some(relayers[0].address);
      } else {
        if f.Some? {
          var j :| 0 <= j < |relayers[1..]| && relayers[1..][j].address == f.value &&
                     Verifies(env, hash, sig, relayers[1..][j]);
          assert relayers[j + 1] == relayers[1..][j];
        } else {
          forall j | 0 <= j < |relayers| && Verifies(env, hash, sig, relayers[j])
            ensures relayers[j].address in signed
          {
            if j > 0 {
              assert relayers[j] == relayers[1..][j - 1];
            }
          }
        }
      }
    }
  }

  lemma HasSignedCons(env: Environment, hash: Bytes, sigs: seq<Bytes>, relayers: seq<Relayer>, a: Address)
    requires sigs != []
    ensures HasSigned(env, hash, sigs, relayers, a) <==>
              HasSigned(env, hash, sigs[..1], relayers, a) || HasSigned(env, hash, sigs[1..], relayers, a)
  {
    hide Verifies;
    if i, j :| 0 <= i < |sigs| && 0 <= j < |relayers| && relayers[j].address == a &&
                 Verifies(env, hash, sigs[i], relayers[j]) {
      if i == 0 {
        assert sigs[..1][0] == sigs[0];
      } else {
        assert sigs[1..][i - 1] == sigs[i];
      }
    }
    if i, j :| 0 <= i < |sigs[1..]| && 0 <= j < |relayers| && relayers[j].address == a &&
                 Verifies(env, hash, sigs[1..][i], relayers[j]) {
      assert sigs[i + 1] == sigs[1..][i];
    }
    if i, j :| 0 <= i < |sigs[..1]| && 0 <= j < |relayers| && relayers[j].address == a &&
                 Verifies(env, hash, sigs[..1][i], relayers[j]) {
      assert sigs[i] == sigs[..1][i];
    }
  }

  /** Only relayers with a verifying signature are counted, each signature for at most one of them. */
  lemma {:induction false} CountSound(
      env: Environment, hash: Bytes, sigs: seq<Bytes>, relayers: seq<Relayer>, signed: set<Address>)
    ensures signed <= Count(env, hash, sigs, relayers, signed)
    ensures forall a :: a in Count(env, hash, sigs, relayers, signed) ==>
              a in signed || HasSigned(env, hash, sigs, relayers, a)
    ensures |Count(env, hash, sigs, relayers, signed)| <= |signed| + |sigs|
    decreases |sigs|
  {
    hide Verifies, FirstSigner, HasSigned;
    if sigs == [] {
    } else {
      var f := FirstSigner(env, hash, sigs[0], relayers, signed);
      FirstSignerMeaning(env, hash, sigs[0], relayers, signed);
      var next := if f.Some? then signed + {f.value} else signed;
      CountSound(env, hash, sigs[1..], relayers, next);
      if f.Some? {
        SignedNow(env, hash, sigs, relayers, f.value);
      }
      forall a | a in Count(env, hash, sigs, relayers, signed)
        ensures a in signed || HasSigned(env, hash, sigs, relayers, a)
      {
        HasSignedCons(env, hash, sigs, relayers, a);
      }
    }
  }

  lemma SignedNow(env: Environment, hash: Bytes, sigs: seq<Bytes>, relayers: seq<Relayer>, a: Address)
    requires sigs != []
    requires exists j :: 0 <= j < |relayers| && relayers[j].address == a && Verifies(env, hash, sigs[0], relayers[j])
    ensures HasSigned(env, hash, sigs, relayers, a)
  {
    hide Verifies;
  }

  /** When no signature verifies for two addresses, the loop counts exactly the addresses that signed. */
  lemma {:induction false} CountExact(
      env: Environment, hash: Bytes, sigs: seq<Bytes>, relayers: seq<Relayer>, signed: set<Address>)
    requires UniqueSigner(env, hash, sigs, relayers)
    ensures forall a :: a in Count(env, hash, sigs, relayers, signed) <==>
              a in signed || HasSigned(env, hash, sigs, relayers, a)
    decreases |sigs|
  {
    hide Verifies, FirstSigner, HasSigned;
    CountSound(env, hash, sigs, relayers, signed);
    if sigs == [] {
      forall a
        ensures !HasSigned(env, hash, [], relayers, a)
      {
        NobodySigned(env, hash, relayers, a);
      }
    } else {
      var f := FirstSigner(env, hash, sigs[0], relayers, signed);
      FirstSignerMeaning(env, hash, sigs[0], relayers, signed);
      var next := if f.Some? then signed + {f.value} else signed;
      forall i, j, k | 0 <= i < |sigs[1..]| && 0 <= j < |relayers| && 0 <= k < |relayers| &&
                       Verifies(env, hash, sigs[1..][i], relayers[j]) && Verifies(env, hash, sigs[1..][i], relayers[k])
        ensures relayers[j].address == relayers[k].address
      {
        assert sigs[1..][i] == sigs[i + 1];
      }
      CountExact(env, hash, sigs[1..], relayers, next);
      forall a | HasSigned(env, hash, sigs, relayers, a)
        ensures a in Count(env, hash, sigs, relayers, signed)
      {
        HasSignedCons(env, hash, sigs, relayers, a);
        if HasSigned(env, hash, sigs[..1], relayers, a) {
          var j := SignerIndex(env, hash, sigs[0], sigs[..1], relayers, a);
          if f.Some? {
            var k :| 0 <= k < |relayers| && relayers[k].address == f.value && Verifies(env, hash, sigs[0], relayers[k]);
            assert relayers[j].address == relayers[k].address;
          }
          assert a in next;
          CountSound(env, hash, sigs[1..], relayers, next);
        }
      }
    }
  }

  lemma NobodySigned(env: Environment, hash: Bytes, relayers: seq<Relayer>, a: Address)
    ensures !HasSigned(env, hash, [], relayers, a)
  {
  }

  lemma SignerIndex(
      env: Environment, hash: Bytes, sig: Bytes, sigs: seq<Bytes>, relayers: seq<Relayer>, a: Address) returns (j: nat)
    requires sigs == [sig] && HasSigned(env, hash, sigs, relayers, a)
    ensures j < |relayers| && relayers[j].address == a && Verifies(env, hash, sig, relayers[j])
  {
    hide Verifies;
    var i, k :| 0 <= i < |sigs| && 0 <= k < |relayers| && relayers[k].address == a &&
                  Verifies(env, hash, sigs[i], relayers[k]);
    j := k;
  }

  ghost predicate DrawnFrom(other: seq<Bytes>, sigs: seq<Bytes>) {
    forall sig :: sig in other ==> sig in sigs
  }

  lemma UniqueSelection(env: Environment, hash: Bytes, sigs: seq<Bytes>, other: seq<Bytes>, relayers: seq<Relayer>)
    requires DrawnFrom(other, sigs) && UniqueSigner(env, hash, sigs, relayers)
    ensures UniqueSigner(env, hash, other, relayers)
  {
    hide Verifies;
    forall i, j, k | 0 <= i < |other| && 0 <= j < |relayers| && 0 <= k < |relayers| &&
                     Verifies(env, hash, other[i], relayers[j]) && Verifies(env, hash, other[i], relayers[k])
      ensures relayers[j].address == relayers[k].address
    {
      assert other[i] in other;
      var m :| 0 <= m < |sigs| && sigs[m] == other[i];
    }
  }

  /** Reordering or repeating signatures then makes no difference. */
  lemma CountIgnoresOrder(env: Environment, hash: Bytes, sigs: seq<Bytes>, other: seq<Bytes>, relayers: seq<Relayer>)
    requires forall sig :: sig in sigs <==> sig in other
    requires UniqueSigner(env, hash, sigs, relayers)
    ensures Count(env, hash, sigs, relayers, {}) == Count(env, hash, other, relayers, {})
  {
    hide Verifies, Count;
    UniqueSelection(env, hash, sigs, other, relayers);
    CountExact(env, hash, sigs, relayers, {});
    CountExact(env, hash, other, relayers, {});
    forall a
      ensures HasSigned(env, hash, sigs, relayers, a) <==> HasSigned(env, hash, other, relayers, a)
    {
      HasSignedMonotone(env, hash, sigs, other, relayers, a);
      HasSignedMonotone(env, hash, other, sigs, relayers, a);
    }
  }

  lemma HasSignedMonotone(
      env: Environment, hash: Bytes, sigs: seq<Bytes>, more: seq<Bytes>, relayers: seq<Relayer>, a: Address)
    requires forall sig :: sig in sigs ==> sig in more
    ensures HasSigned(env, hash, sigs, relayers, a) ==> HasSigned(env, hash, more, relayers, a)
  {
    hide Verifies;
    if i, j :| 0 <= i < |sigs| && 0 <= j < |relayers| && relayers[j].address == a &&
                 Verifies(env, hash, sigs[i], relayers[j]) {
      assert sigs[i] in more;
      var k :| 0 <= k < |more| && more[k] == sigs[i];
    }
  }

  /** The loop counts exactly the addresses that signed. */
  ghost predicate CountsSigners(env: Environment, hash: Bytes, sigs: seq<Bytes>, relayers: seq<Relayer>) {
    forall a :: a in Count(env, hash, sigs, relayers, {}) <==> HasSigned(env, hash, sigs, relayers, a)
  }

  /**
   The count is right for every selection, order and repetition of the given signatures if and only if
   none of them verifies for two addresses.
   */
  lemma CountExactIff(env: Environment, hash: Bytes, sigs: seq<Bytes>, relayers: seq<Relayer>)
    ensures (forall other :: DrawnFrom(other, sigs) ==> CountsSigners(env, hash, other, relayers))
       <==> UniqueSigner(env, hash, sigs, relayers)
  {
    hide Verifies, Count, HasSigned;
    if UniqueSigner(env, hash, sigs, relayers) {
      forall other | DrawnFrom(other, sigs)
        ensures CountsSigners(env, hash, other, relayers)
      {
        UniqueSelection(env, hash, sigs, other, relayers);
        CountExact(env, hash, other, relayers, {});
      }
    } else {
      var i, j, k :| 0 <= i < |sigs| && 0 <= j < |relayers| && 0 <= k < |relayers| &&
                     Verifies(env, hash, sigs[i], relayers[j]) && Verifies(env, hash, sigs[i], relayers[k]) &&
                     relayers[j].address != relayers[k].address;
      assert DrawnFrom([sigs[i]], sigs);
      OneSignatureTwoSigners(env, hash, sigs[i], relayers, j, k);
    }
  }

  lemma OneSignatureTwoSigners(
      env: Environment, hash: Bytes, sig: Bytes, relayers: seq<Relayer>, j: nat, k: nat)
    requires j < |relayers| && k < |relayers| && relayers[j].address != relayers[k].address
    requires Verifies(env, hash, sig, relayers[j]) && Verifies(env, hash, sig, relayers[k])
    ensures !CountsSigners(env, hash, [sig], relayers)
  {
    hide Verifies, Count;
    var counted := Count(env, hash, [sig], relayers, {});
    var a, b := relayers[j].address, relayers[k].address;
    CountSound(env, hash, [sig], relayers, {});
    assert [sig][0] == sig;
    assert HasSigned(env, hash, [sig], relayers, a) && HasSigned(env, hash, [sig], relayers, b);
    if a in counted && b in counted {
      TwoElements(counted, a, b);
    }
  }

  lemma TwoElements<T>(s: set<T>, a: T, b: T)
    requires a in s && b in s && a != b
    ensures |s| >= 2
  {
    assert |s - {a} - {b}| == |s| - 2;
  }

  /** The addresses for which a signature verifies. */
  ghost function Signers(env: Environment, hash: Bytes, sig: Bytes, relayers: seq<Relayer>): set<Address> {
    set j | 0 <= j < |relayers| && Verifies(env, hash, sig, relayers[j]) :: relayers[j].address
  }

  function Min(a: nat, b: nat): nat {
    if a < b then a else b
  }

  /** A signature sent n times counts for n addresses, as long as there are that many it verifies for. */
  lemma {:induction false} RepetitionCounts(
      env: Environment, hash: Bytes, sig: Bytes, sigs: seq<Bytes>, relayers: seq<Relayer>, signed: set<Address>)
    requires forall i :: 0 <= i < |sigs| ==> sigs[i] == sig
    requires signed <= Signers(env, hash, sig, relayers)
    ensures |Count(env, hash, sigs, relayers, signed)| == Min(|signed| + |sigs|, |Signers(env, hash, sig, relayers)|)
    decreases |sigs|
  {
    hide Verifies, FirstSigner, Signers;
    var all := Signers(env, hash, sig, relayers);
    SubsetSize(signed, all);
    if sigs == [] {
      assert Count(env, hash, sigs, relayers, signed) == signed;
    } else {
      var f := FirstSigner(env, hash, sig, relayers, signed);
      NextSigner(env, hash, sig, relayers, signed);
      RepetitionCounts(env, hash, sig, sigs[1..], relayers, if f.Some? then signed + {f.value} else signed);
    }
  }

  lemma NextSigner(env: Environment, hash: Bytes, sig: Bytes, relayers: seq<Relayer>, signed: set<Address>)
    requires signed <= Signers(env, hash, sig, relayers)
    ensures var f := FirstSigner(env, hash, sig, relayers, signed);
            if f.Some? then f.value !in signed && f.value in Signers(env, hash, sig, relayers)
            else signed == Signers(env, hash, sig, relayers)
  {
    hide Verifies, FirstSigner;
    FirstSignerMeaning(env, hash, sig, relayers, signed);
  }

  lemma SubsetSize<T>(a: set<T>, b: set<T>)
    requires a <= b
    ensures |a| <= |b|
  {
    assert b == a + (b - a);
  }

  // ---------- The relayer set ----------

  /** Relayer entries are stored under their own address. */
  ghost predicate WellKeyed(store: Store) {
    forall key :: key in store && key != [] && key[0] == RELAYER_PREFIX ==>
                    store[key].RelayerEntry? && key == RelayerKey(store[key].relayer.address)
  }

  ghost predicate Registered(store: Store, r: Relayer) {
    RelayerKey(r.address) in store && store[RelayerKey(r.address)] == RelayerEntry(r)
  }

  lemma {:induction false} RelayersFromMeaning(store: Store, keys: seq<Bytes>, r: Relayer)
    ensures r in RelayersFrom(store, keys) <==>
              exists key :: key in keys && key in store && store[key] == RelayerEntry(r)
    decreases |keys|
  {
    if keys == [] {
    } else {
      RelayersFromMeaning(store, keys[1..], r);
      assert keys == [keys[0]] + keys[1..];
    }
  }

  /** GetRelayers lists exactly the registered relayers. */
  lemma GetRelayersMeaning(store: Store, r: Relayer)
    requires WellKeyed(store)
    ensures r in GetRelayers(store) <==> Registered(store, r)
  {
    hide RelayersFrom;
    RelayersFromMeaning(store, SortedKeys(RelayerKeys(store)), r);
    if Registered(store, r) {
      assert RelayerKey(r.address) in RelayerKeys(store);
    }
  }

  /** Adding and removing relayers changes exactly the entry of that address. */
  lemma RelayerSetChanges(store: Store, r: Relayer, other: Relayer)
    requires WellKeyed(store)
    ensures WellKeyed(SetRelayer(store, r)) && WellKeyed(DeleteRelayer(store, r.address))
    ensures Registered(SetRelayer(store, r), other) <==>
              other == r || (other.address != r.address && Registered(store, other))
    ensures Registered(DeleteRelayer(store, r.address), other) <==>
              other.address != r.address && Registered(store, other)
  {
    assert RelayerKey(r.address)[1..] == r.address && RelayerKey(other.address)[1..] == other.address;
  }

  // ---------- One transaction ----------

  /** The amount of a denomination that an accepted deposit mints. */
  function Deposit(env: Environment, s: State, tx: Tx, d: string): int {
    if tx.In? && Accepted(env, s, tx) then AmountOf(tx.msgIn.amount, d) else 0
  }

  /** The amount of a denomination that an accepted withdrawal burns. */
  function Withdrawal(env: Environment, s: State, tx: Tx, d: string): int {
    if tx.Out? && Accepted(env, s, tx) then AmountOf(tx.msgOut.amount, d) else 0
  }

  ghost predicate WithinCap(s: State) {
    var cap := GetParams(s.store).supplyCap;
    0 <= GetCosmosMinted(s.store) && (cap.Some? ==> GetCosmosMinted(s.store) <= cap.value)
  }

  ghost predicate StoreInvariant(store: Store) {
    BitmapSound(store) && WellKeyed(store)
  }

  /** Writing below one prefix leaves what is read below the others. */
  lemma SetNonceFrame(store: Store, nonce: Bytes)
    requires StoreInvariant(store)
    ensures var store' := SetNonceProcessed(store, nonce);
            && StoreInvariant(store')
            && GetParams(store') == GetParams(store)
            && GetCosmosMinted(store') == GetCosmosMinted(store)
            && forall m :: Processed(store', m) <==> m == FromBytes(nonce) || Processed(store, m)
  {
    hide Or, Bit, Shl, ToBytes, FromBytes, Processed, BitmapSound, BridgeNonces.SetNonceProcessed;
    SetKeepsBitmapSound(store, nonce);
    SetAddsExactlyOne(store, nonce, 0);
    forall m
      ensures Processed(SetNonceProcessed(store, nonce), m) <==> m == FromBytes(nonce) || Processed(store, m)
    {
      SetAddsExactlyOne(store, nonce, m);
    }
  }

  lemma SetMintedFrame(store: Store, amount: int)
    requires StoreInvariant(store)
    ensures var store' := SetCosmosMinted(store, amount);
            && StoreInvariant(store')
            && GetParams(store') == GetParams(store)
            && GetCosmosMinted(store') == amount
            && forall m :: Processed(store', m) <==> Processed(store, m)
  {
    hide FromBytes, ToBytes, Bit;
  }

  lemma RelayerFrame(store: Store, r: Relayer, store': Store)
    requires StoreInvariant(store)
    requires store' == SetRelayer(store, r) || store' == DeleteRelayer(store, r.address)
    ensures StoreInvariant(store')
    ensures GetParams(store') == GetParams(store)
    ensures GetCosmosMinted(store') == GetCosmosMinted(store)
    ensures forall m :: Processed(store', m) <==> Processed(store, m)
  {
    hide FromBytes, ToBytes, Bit;
    RelayerSetChanges(store, r, r);
  }

  /** Everything one transaction does to the ledger. */
  lemma DeliverEffect(env: Environment, s: State, tx: Tx)
    requires StoreInvariant(s.store)
    ensures var s' := Deliver(env, s, tx).0;
            && StoreInvariant(s'.store)
            && GetParams(s'.store) == GetParams(s.store)
            && GetCosmosMinted(s'.store)
               == GetCosmosMinted(s.store) + Deposit(env, s, tx, BRIDGED_DENOM) - Withdrawal(env, s, tx, BRIDGED_DENOM)
            && (forall d :: s'.bank.supply(d) == s.bank.supply(d) + Deposit(env, s, tx, d) - Withdrawal(env, s, tx, d))
            && (WithinCap(s) ==> WithinCap(s'))
            && (!Accepted(env, s, tx) ==> s' == s)
            && forall m :: Processed(s'.store, m) <==>
                             Processed(s.store, m) || (tx.In? && Accepted(env, s, tx) && m == FromBytes(tx.msgIn.nonce))
  {
    hide FromBytes, Processed, StoreInvariant, Count, BridgeNonces.SetNonceProcessed, IsNonceProcessed;
    hide BridgeLedger.SetRelayer, BridgeLedger.DeleteRelayer, MessageHash,
      GetParams, GetCosmosMinted, SetCosmosMinted;
    match tx {
      case In(msg, faults) =>
        if Accepted(env, s, tx) {
          var store := SetNonceProcessed(s.store, msg.nonce);
          SetNonceFrame(s.store, msg.nonce);
          SetMintedFrame(store, GetCosmosMinted(s.store) + AmountOf(msg.amount, BRIDGED_DENOM));
        }
      case Out(msg, faults) =>
        if Accepted(env, s, tx) {
          SetMintedFrame(s.store, GetCosmosMinted(s.store) - AmountOf(msg.amount, BRIDGED_DENOM));
        }
      case AddRelayer(r) =>
        RelayerFrame(s.store, r, SetRelayer(s.store, r));
      case RemoveRelayer(a) =>
        RelayerFrame(s.store, Relayer(a, []), DeleteRelayer(s.store, a));
    }
  }

  /** Accepted messages move exactly the amounts they name, and leave nothing with the module. */
  lemma AcceptedMovesBalances(env: Environment, s: State, tx: Tx, a: string, d: string)
    requires Accepted(env, s, tx)
    ensures var s' := Deliver(env, s, tx).0;
            match tx
            case In(msg, _) =>
              && env.account(msg.receiver).Some?
              && s'.bank.balance(a, d) == s.bank.balance(a, d)
                 + (if Some(a) == env.account(msg.receiver) then AmountOf(msg.amount, d) else 0)
            case Out(msg, _) =>
              && env.account(msg.sender).Some?
              && s'.bank.balance(a, d) == s.bank.balance(a, d)
                 - (if Some(a) == env.account(msg.sender) then AmountOf(msg.amount, d) else 0)
            case _ => s'.bank == s.bank
  {
    hide Count, BridgeNonces.SetNonceProcessed, IsNonceProcessed, MessageHash, GetRelayers;
  }

  /** An accepted deposit has a fresh nonce and a quorum of registered relayers behind it. */
  lemma AcceptedDepositHasQuorum(env: Environment, s: State, tx: Tx) returns (signers: set<Address>)
    requires tx.In? && Accepted(env, s, tx) && WellKeyed(s.store)
    ensures !Processed(s.store, FromBytes(tx.msgIn.nonce))
    ensures |signers| >= GetParams(s.store).quorumThreshold
    ensures forall a :: a in signers ==>
              exists sig, key :: sig in tx.msgIn.signatures && Registered(s.store, Relayer(a, key)) &&
                                 Verifies(env, MessageHash(env, tx.msgIn), sig, Relayer(a, key))
  {
    hide FromBytes, Processed, Count, BridgeNonces.SetNonceProcessed, IsNonceProcessed, MessageHash;
    hide GetRelayers, Verifies, WellKeyed, Registered;
    var msg := tx.msgIn;
    ProcessedIsTested(s.store, msg.nonce);
    var hash, relayers := MessageHash(env, msg), GetRelayers(s.store);
    signers := Count(env, hash, msg.signatures, relayers, {});
    CountSound(env, hash, msg.signatures, relayers, {});
    forall a | a in signers
      ensures exists sig, key :: sig in msg.signatures && Registered(s.store, Relayer(a, key)) &&
                                 Verifies(env, hash, sig, Relayer(a, key))
    {
      var i, j :| 0 <= i < |msg.signatures| && 0 <= j < |relayers| && relayers[j].address == a &&
                  Verifies(env, hash, msg.signatures[i], relayers[j]);
      var sig, r := msg.signatures[i], relayers[j];
      GetRelayersMeaning(s.store, r);
      assert r in relayers && sig in msg.signatures;
      assert Registered(s.store, Relayer(a, r.pubKey)) && Verifies(env, hash, sig, Relayer(a, r.pubKey));
    }
  }

  // ---------- Runs ----------

  function Deposits(env: Environment, s: State, txs: seq<Tx>, d: string): int
    decreases |txs|
  {
    if txs == [] then 0 else Deposit(env, s, txs[0], d) + Deposits(env, Deliver(env, s, txs[0]).0, txs[1..], d)
  }

  function Withdrawals(env: Environment, s: State, txs: seq<Tx>, d: string): int
    decreases |txs|
  {
    if txs == [] then 0 else Withdrawal(env, s, txs[0], d) + Withdrawals(env, Deliver(env, s, txs[0]).0, txs[1..], d)
  }

  /** The nonces, as numbers, of the deposits accepted in a run. */
  function MintedNonces(env: Environment, s: State, txs: seq<Tx>): seq<nat>
    decreases |txs|
  {
    if txs == [] then []
    else
      (if txs[0].In? && Accepted(env, s, txs[0]) then [FromBytes(txs[0].msgIn.nonce)] else [])
      + MintedNonces(env, Deliver(env, s, txs[0]).0, txs[1..])
  }

  /**
   Conservation over every run: the counter follows accepted deposits and withdrawals, the bank supply
   of every denomination follows them too, so the counter tracks the supply of the bridged coin; and
   the counter never leaves the range from zero to the cap.
   */
  lemma {:induction false} RunConserves(env: Environment, s: State, txs: seq<Tx>)
    requires StoreInvariant(s.store)
    ensures var s' := Run(env, s, txs);
            && StoreInvariant(s'.store)
            && GetParams(s'.store) == GetParams(s.store)
            && GetCosmosMinted(s'.store)
               == GetCosmosMinted(s.store)
                  + Deposits(env, s, txs, BRIDGED_DENOM) - Withdrawals(env, s, txs, BRIDGED_DENOM)
            && (forall d ::
                  s'.bank.supply(d) == s.bank.supply(d) + Deposits(env, s, txs, d) - Withdrawals(env, s, txs, d))
            && GetCosmosMinted(s'.store) - GetCosmosMinted(s.store) ==
                 s'.bank.supply(BRIDGED_DENOM) - s.bank.supply(BRIDGED_DENOM)
            && (WithinCap(s) ==> WithinCap(s'))
    decreases |txs|
  {
    hide StoreInvariant, WithinCap, GetParams, GetCosmosMinted, Deliver, Deposit, Withdrawal;
    if txs == [] {
    } else {
      DeliverEffect(env, s, txs[0]);
      RunConserves(env, Deliver(env, s, txs[0]).0, txs[1..]);
    }
  }

  /** Every numeric nonce mints at most once, and the bitmap records exactly the nonces that did. */
  lemma {:induction false} EachNonceMintsOnce(env: Environment, s: State, txs: seq<Tx>)
    requires StoreInvariant(s.store)
    ensures var nonces := MintedNonces(env, s, txs);
            && (forall i, j :: 0 <= i < j < |nonces| ==> nonces[i] != nonces[j])
            && (forall n :: n in nonces ==> !Processed(s.store, n))
            && (forall n :: Processed(Run(env, s, txs).store, n) <==> Processed(s.store, n) || n in nonces)
    decreases |txs|
  {
    hide StoreInvariant, GetParams, GetCosmosMinted, Deliver, Deposit, Withdrawal;
    hide Processed, FromBytes, Accepted, WithinCap;
    if txs == [] {
    } else {
      var tx := txs[0];
      var next := Deliver(env, s, tx).0;
      DeliverEffect(env, s, tx);
      EachNonceMintsOnce(env, next, txs[1..]);
      if tx.In? && Accepted(env, s, tx) {
        FreshNonce(env, s, tx);
        DistinctWithFirst(FromBytes(tx.msgIn.nonce), MintedNonces(env, next, txs[1..]));
      }
    }
  }

  lemma DistinctWithFirst(n: nat, rest: seq<nat>)
    requires n !in rest && forall i, j :: 0 <= i < j < |rest| ==> rest[i] != rest[j]
    ensures forall i, j :: 0 <= i < j < |[n] + rest| ==> ([n] + rest)[i] != ([n] + rest)[j]
  {
    assert forall i :: 0 < i < |[n] + rest| ==> ([n] + rest)[i] == rest[i - 1];
  }

  lemma FreshNonce(env: Environment, s: State, tx: Tx)
    requires tx.In? && Accepted(env, s, tx)
    ensures !Processed(s.store, FromBytes(tx.msgIn.nonce))
  {
    hide FromBytes, Processed, Count, BridgeNonces.SetNonceProcessed, IsNonceProcessed, MessageHash, GetRelayers;
    ProcessedIsTested(s.store, tx.msgIn.nonce);
  }
}
