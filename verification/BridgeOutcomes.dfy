/** When the bridge accepts a message, and which error the first failing test gives. */
module BridgeOutcomes {
  import opened Order
  import opened Prelude
  import opened BridgeTypes
  import opened BridgeNonces
  import opened BridgeLedger
  import opened BridgeProperties

  // ---------- The quorum ----------

  /** Some signature of the message verifies under the key registered for this address. */
  ghost predicate SignedFor(env: Environment, store: Store, msg: MsgBridgeIn, a: Address) {
    exists sig, key :: sig in msg.signatures && Registered(store, Relayer(a, key)) &&
                       Verifies(env, MessageHash(env, msg), sig, Relayer(a, key))
  }

  /** No signature of the message verifies under the keys of two registered addresses. */
  ghost predicate OneSignerEach(env: Environment, store: Store, msg: MsgBridgeIn) {
    forall sig, q, r :: sig in msg.signatures && Registered(store, q) && Registered(store, r) &&
                        Verifies(env, MessageHash(env, msg), sig, q) && Verifies(env, MessageHash(env, msg), sig, r) ==>
                          q.address == r.address
  }

  /** As many registered addresses as the quorum asks for have signed. */
  ghost predicate QuorumSigned(env: Environment, store: Store, msg: MsgBridgeIn) {
    exists signers: set<Address> :: |signers| >= GetParams(store).quorumThreshold &&
                                    forall a :: a in signers ==> SignedFor(env, store, msg, a)
  }

  lemma SignedForIsHasSigned(env: Environment, store: Store, msg: MsgBridgeIn, a: Address)
    requires WellKeyed(store)
    ensures SignedFor(env, store, msg, a)
       <==> HasSigned(env, MessageHash(env, msg), msg.signatures, GetRelayers(store), a)
  {
    hide Verifies, Registered, GetRelayers, WellKeyed, MessageHash;
    var hash, relayers := MessageHash(env, msg), GetRelayers(store);
    if sig, key :| sig in msg.signatures && Registered(store, Relayer(a, key)) &&
                     Verifies(env, hash, sig, Relayer(a, key)) {
      GetRelayersMeaning(store, Relayer(a, key));
      var i :| 0 <= i < |msg.signatures| && msg.signatures[i] == sig;
      var j :| 0 <= j < |relayers| && relayers[j] == Relayer(a, key);
    }
    if i, j :| 0 <= i < |msg.signatures| && 0 <= j < |relayers| && relayers[j].address == a &&
                 Verifies(env, hash, msg.signatures[i], relayers[j]) {
      GetRelayersMeaning(store, relayers[j]);
      assert relayers[j] in relayers && msg.signatures[i] in msg.signatures;
      assert relayers[j] == Relayer(a, relayers[j].pubKey);
    }
  }

  lemma UniqueInList(env: Environment, store: Store, msg: MsgBridgeIn)
    requires WellKeyed(store) && OneSignerEach(env, store, msg)
    ensures UniqueSigner(env, MessageHash(env, msg), msg.signatures, GetRelayers(store))
  {
    hide Verifies, Registered, GetRelayers, WellKeyed, MessageHash;
    var relayers := GetRelayers(store);
    forall j | 0 <= j < |relayers|
      ensures Registered(store, relayers[j])
    {
      assert relayers[j] in relayers;
      GetRelayersMeaning(store, relayers[j]);
    }
    assert forall i :: 0 <= i < |msg.signatures| ==> msg.signatures[i] in msg.signatures;
  }

  /** The counted signatures reach the quorum if and only if enough registered addresses have signed. */
  lemma QuorumIsCounted(env: Environment, store: Store, msg: MsgBridgeIn)
    requires WellKeyed(store) && OneSignerEach(env, store, msg)
    ensures var counted := Count(env, MessageHash(env, msg), msg.signatures, GetRelayers(store), {});
            |counted| >= GetParams(store).quorumThreshold <==> QuorumSigned(env, store, msg)
  {
    hide Count, Verifies, Registered, GetRelayers, WellKeyed, MessageHash, GetParams;
    hide HasSigned, SignedFor, UniqueSigner, OneSignerEach;
    var counted := Count(env, MessageHash(env, msg), msg.signatures, GetRelayers(store), {});
    UniqueInList(env, store, msg);
    CountExact(env, MessageHash(env, msg), msg.signatures, GetRelayers(store), {});
    forall a
      ensures a in counted <==> SignedFor(env, store, msg, a)
    {
      SignedForIsHasSigned(env, store, msg, a);
    }
    if signers: set<Address> :| |signers| >= GetParams(store).quorumThreshold &&
                                forall a :: a in signers ==> SignedFor(env, store, msg, a) {
      SubsetSize(signers, counted);
    }
  }

  /** A 65-byte signature counts exactly as its first 64 bytes do. */
  lemma {:induction false} RecoveryByteIgnored(
      env: Environment, hash: Bytes, sigs: seq<Bytes>, relayers: seq<Relayer>, signed: set<Address>, i: nat)
    requires i < |sigs| && |sigs[i]| == 65
    ensures Count(env, hash, sigs, relayers, signed) == Count(env, hash, sigs[i := sigs[i][..64]], relayers, signed)
    decreases |sigs|
  {
    hide FirstSigner;
    var short := sigs[i := sigs[i][..64]];
    if i == 0 {
      SameFirstSigner(env, hash, sigs[0], sigs[0][..64], relayers, signed);
      assert short[1..] == sigs[1..];
    } else {
      var f := FirstSigner(env, hash, sigs[0], relayers, signed);
      RecoveryByteIgnored(env, hash, sigs[1..], relayers, if f.Some? then signed + {f.value} else signed, i - 1);
      assert short[1..] == sigs[1..][i - 1 := sigs[i][..64]];
    }
  }

  lemma {:induction false} SameFirstSigner(
      env: Environment, hash: Bytes, long: Bytes, short: Bytes, relayers: seq<Relayer>, signed: set<Address>)
    requires |long| == 65 && short == long[..64]
    ensures FirstSigner(env, hash, long, relayers, signed) == FirstSigner(env, hash, short, relayers, signed)
    decreases |relayers|
  {
    if relayers == [] {
    } else {
      SameFirstSigner(env, hash, long, short, relayers[1..], signed);
    }
  }

  // ---------- Deposits ----------

  /** The tests a deposit message must pass on its own. */
  ghost predicate DepositWellFormed(env: Environment, msg: MsgBridgeIn) {
    && env.account(msg.submitter).Some? && env.account(msg.receiver).Some?
    && (exists d :: d in msg.amount) && (forall d :: d in msg.amount ==> msg.amount[d] > 0)
    && |msg.nonce| > 0 && |msg.signatures| > 0
  }

  /** The bank mints the coins and pays them out: nothing of them was owed by the module before. */
  ghost predicate DepositPayable(s: State, msg: MsgBridgeIn, faults: Faults) {
    && !faults.mintFails && !faults.sendFails
    && forall d :: d in msg.amount ==> s.bank.balance(MODULE_ACCOUNT, d) >= 0
  }

  ghost predicate WithinNewCap(s: State, msg: MsgBridgeIn) {
    var cap := GetParams(s.store).supplyCap;
    cap.Some? && GetCosmosMinted(s.store) + AmountOf(msg.amount, BRIDGED_DENOM) <= cap.value
  }

  /** The error a deposit is refused with: the first test in this order that fails. */
  ghost function DepositError(env: Environment, s: State, msg: MsgBridgeIn, faults: Faults): Option<Error> {
    if !DepositWellFormed(env, msg) then Some(InvalidMessage)
    else if Processed(s.store, FromBytes(msg.nonce)) then Some(NonceUsed)
    else if !QuorumSigned(env, s.store, msg) then Some(TooFewSignatures)
    else if GetParams(s.store).supplyCap.None? then Some(BadSupplyCap)
    else if !WithinNewCap(s, msg) then Some(CapExceeded)
    else if faults.mintFails then Some(MintFailed)
    else if !DepositPayable(s, msg, faults) then Some(SendFailed)
    else None
  }

  lemma WellFormedIsValidated(env: Environment, msg: MsgBridgeIn)
    ensures ValidateBridgeIn(env, msg) <==> DepositWellFormed(env, msg)
  {
    SomeCoin(msg.amount);
  }

  lemma SomeCoin(c: Coins)
    ensures |c| != 0 <==> exists d :: d in c
  {
    if |c| != 0 {
      assert c.Keys != {};
      var d :| d in c.Keys;
    }
  }

  /**
   When each signature belongs to one registered address, a deposit is accepted if and only if it is well
   formed, its nonce number is not processed, a quorum of registered addresses has signed it, it fits the
   cap, and the bank can pay; otherwise the first of these that fails gives the error.
   */
  lemma DepositOutcome(env: Environment, s: State, msg: MsgBridgeIn, faults: Faults)
    requires WellKeyed(s.store) && OneSignerEach(env, s.store, msg)
    ensures Deliver(env, s, In(msg, faults)).1 == DepositError(env, s, msg, faults)
    ensures Accepted(env, s, In(msg, faults)) <==>
              && DepositWellFormed(env, msg)
              && !Processed(s.store, FromBytes(msg.nonce))
              && QuorumSigned(env, s.store, msg)
              && WithinNewCap(s, msg)
              && DepositPayable(s, msg, faults)
  {
    hide Count, GetRelayers, GetParams, GetCosmosMinted, MessageHash, WellKeyed, OneSignerEach, QuorumSigned;
    hide Processed, IsNonceProcessed, BridgeNonces.SetNonceProcessed, FromBytes, ValidateBridgeIn, DepositWellFormed;
    WellFormedIsValidated(env, msg);
    ProcessedIsTested(s.store, msg.nonce);
    QuorumIsCounted(env, s.store, msg);
    ReceiverDecodes(env, msg);
  }

  lemma ReceiverDecodes(env: Environment, msg: MsgBridgeIn)
    ensures ValidateBridgeIn(env, msg) ==> env.account(msg.receiver).Some?
  {
  }

  /** Before parameters are set, no deposit of the bridged coin is accepted. */
  lemma NoParamsNoDeposit(env: Environment, s: State, msg: MsgBridgeIn, faults: Faults)
    requires [PARAMS_PREFIX] !in s.store && GetCosmosMinted(s.store) >= 0 && BRIDGED_DENOM in msg.amount
    ensures !Accepted(env, s, In(msg, faults))
  {
    hide Count, GetRelayers, MessageHash, IsNonceProcessed, BridgeNonces.SetNonceProcessed, GetCosmosMinted;
    assert GetParams(s.store).supplyCap == Some(0);
  }

  // ---------- Withdrawals ----------

  ghost predicate WithdrawalWellFormed(env: Environment, msg: MsgBridgeOut) {
    && env.account(msg.sender).Some? && msg.bscRecipient != ""
    && (exists d :: d in msg.amount) && (forall d :: d in msg.amount ==> msg.amount[d] > 0)
  }

  /** The sender holds the coins. */
  ghost predicate SenderPays(env: Environment, s: State, msg: MsgBridgeOut)
    requires env.account(msg.sender).Some?
  {
    forall d :: d in msg.amount ==> msg.amount[d] <= s.bank.balance(env.account(msg.sender).value, d)
  }

  /** The module can burn what it is sent: it owed nothing of the coins, or it is the sender itself. */
  ghost predicate ModuleBurns(env: Environment, s: State, msg: MsgBridgeOut) {
    env.account(msg.sender) == Some(MODULE_ACCOUNT) ||
    forall d :: d in msg.amount ==> s.bank.balance(MODULE_ACCOUNT, d) >= 0
  }

  ghost function WithdrawalError(env: Environment, s: State, msg: MsgBridgeOut, faults: Faults): Option<Error> {
    if !WithdrawalWellFormed(env, msg) then Some(InvalidMessage)
    else if GetCosmosMinted(s.store) < AmountOf(msg.amount, BRIDGED_DENOM) then Some(InsufficientCirculation)
    else if faults.sendFails || !SenderPays(env, s, msg) then Some(SendFailed)
    else if faults.burnFails || !ModuleBurns(env, s, msg) then Some(BurnFailed)
    else None
  }

  lemma WithdrawalValidated(env: Environment, msg: MsgBridgeOut)
    ensures ValidateBridgeOut(env, msg) <==> WithdrawalWellFormed(env, msg)
  {
    SomeCoin(msg.amount);
  }

  /**
   A withdrawal is accepted if and only if it is well formed, enough of the bridged coin circulates, the
   sender holds the coins and the bank steps succeed; otherwise the first of these that fails gives the error.
   */
  lemma WithdrawalOutcome(env: Environment, s: State, msg: MsgBridgeOut, faults: Faults)
    ensures Deliver(env, s, Out(msg, faults)).1 == WithdrawalError(env, s, msg, faults)
    ensures Accepted(env, s, Out(msg, faults)) <==>
              && WithdrawalWellFormed(env, msg)
              && AmountOf(msg.amount, BRIDGED_DENOM) <= GetCosmosMinted(s.store)
              && !faults.sendFails && SenderPays(env, s, msg)
              && !faults.burnFails && ModuleBurns(env, s, msg)
  {
    hide GetCosmosMinted;
    WithdrawalValidated(env, msg);
  }

  /** The amount the message lists for a denomination; it lists nothing for the others. */
  ghost predicate Lists(c: Coins, d: string, n: int) {
    (d in c ==> n == c[d]) && (d !in c ==> n == 0)
  }

  /** An accepted message changes each supply by what it lists, and the counter by what it lists of the bridged coin. */
  lemma ListedAmountsMove(env: Environment, s: State, tx: Tx, d: string, n: int, bridged: int)
    requires StoreInvariant(s.store) && Accepted(env, s, tx) && (tx.In? || tx.Out?)
    requires Lists(if tx.In? then tx.msgIn.amount else tx.msgOut.amount, d, n)
    requires Lists(if tx.In? then tx.msgIn.amount else tx.msgOut.amount, "uwsov", bridged)
    ensures var s' := Deliver(env, s, tx).0;
            && s'.bank.supply(d) == s.bank.supply(d) + (if tx.In? then n else -n)
            && GetCosmosMinted(s'.store) == GetCosmosMinted(s.store) + (if tx.In? then bridged else -bridged)
  {
    hide Deliver, StoreInvariant, GetCosmosMinted, Accepted;
    DeliverEffect(env, s, tx);
  }
}
