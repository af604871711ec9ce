/** The message handlers of chain/x/bridge/keeper.go as functions on the store and the bank. */
module BridgeLedger {
  import opened Order
  import opened Prelude
  import opened BridgeTypes
  import opened BridgeNonces

  // ---------- The bank ----------

  datatype Bank = Bank(balance: (string, string) -> int, supply: string -> int)

  const MODULE_ACCOUNT := "bridge"

  function Mint(b: Bank, coins: Coins): Bank {
    Bank(
      (a, d) => if a == MODULE_ACCOUNT then b.balance(a, d) + AmountOf(coins, d) else b.balance(a, d),
      d => b.supply(d) + AmountOf(coins, d))
  }

  function Burn(b: Bank, coins: Coins): Bank {
    Bank(
      (a, d) => if a == MODULE_ACCOUNT then b.balance(a, d) - AmountOf(coins, d) else b.balance(a, d),
      d => b.supply(d) - AmountOf(coins, d))
  }

  function Send(b: Bank, from: string, to: string, coins: Coins): Bank {
    Bank(
      (a, d) =>
        b.balance(a, d)
        - (if a == from then AmountOf(coins, d) else 0)
        + (if a == to then AmountOf(coins, d) else 0),
      b.supply)
  }

  predicate CanPay(b: Bank, from: string, coins: Coins) {
    forall d :: d in coins ==> coins[d] <= b.balance(from, d)
  }

  /** Failures of the bank that this module cannot foresee. */
  datatype Faults = Faults(mintFails: bool, sendFails: bool, burnFails: bool)

  datatype State = State(store: Store, bank: Bank)

  datatype Error =
    | NonceUsed
    | TooFewSignatures
    | BadSupplyCap
    | CapExceeded
    | BadAddress
    | MintFailed
    | SendFailed
    | InsufficientCirculation
    | BurnFailed
    | InvalidMessage

  // ---------- Typed access to the store ----------

  function GetParams(store: Store): Params {
    if [PARAMS_PREFIX] in store && store[[PARAMS_PREFIX]].ParamsEntry? then store[[PARAMS_PREFIX]].params
    else DEFAULT_PARAMS
  }

  function GetCosmosMinted(store: Store): int {
    if COSMOS_MINTED in store && store[COSMOS_MINTED].Minted? then store[COSMOS_MINTED].amount else 0
  }

  function SetCosmosMinted(store: Store, amount: int): Store {
    store[COSMOS_MINTED := Minted(amount)]
  }

  function RelayerKey(address: Address): Bytes {
    [RELAYER_PREFIX] + address
  }

  function RelayersFrom(store: Store, keys: seq<Bytes>): seq<Relayer> {
    if keys == [] then []
    else if keys[0] in store && store[keys[0]].RelayerEntry? then
      [store[keys[0]].relayer] + RelayersFrom(store, keys[1..])
    else RelayersFrom(store, keys[1..])
  }

  function RelayerKeys(store: Store): set<Bytes> {
    set key | key in store && key != [] && key[0] == RELAYER_PREFIX
  }

  /** GetRelayers: the entries below the relayer prefix, in key order. */
  function GetRelayers(store: Store): seq<Relayer> {
    RelayersFrom(store, SortedKeys(RelayerKeys(store)))
  }

  function SetRelayer(store: Store, r: Relayer): Store {
    store[RelayerKey(r.address) := RelayerEntry(r)]
  }

  function DeleteRelayer(store: Store, address: Address): Store {
    store - {RelayerKey(address)}
  }

  // ---------- Counting signatures ----------

  /** A recovery byte after the 64 bytes of a signature is dropped. */
  function CleanSignature(sig: Bytes): Bytes {
    if |sig| == 65 then sig[..64] else sig
  }

  /** The first relayer not yet counted whose key verifies the signature. */
  function FirstSigner(
      env: Environment, hash: Bytes, sig: Bytes, relayers: seq<Relayer>, signed: set<Address>): Option<Address> {
    if relayers == [] then None
    else if relayers[0].address !in signed && env.verifies(relayers[0].pubKey, hash, CleanSignature(sig)) then
      Some(relayers[0].address)
    else FirstSigner(env, hash, sig, relayers[1..], signed)
  }

  function Count(
      env: Environment, hash: Bytes, sigs: seq<Bytes>, relayers: seq<Relayer>, signed: set<Address>): set<Address>
    decreases |sigs|
  {
    if sigs == [] then signed
    else
      match FirstSigner(env, hash, sigs[0], relayers, signed)
      case None => Count(env, hash, sigs[1..], relayers, signed)
      case Some(a) => Count(env, hash, sigs[1..], relayers, signed + {a})
  }

  // ---------- Message handlers, before any rollback ----------

  function ProcessBridgeIn(env: Environment, s: State, msg: MsgBridgeIn, faults: Faults): (State, Option<Error>) {
    var params := GetParams(s.store);
    var signed := Count(env, MessageHash(env, msg), msg.signatures, GetRelayers(s.store), {});
    var newMinted := GetCosmosMinted(s.store) + AmountOf(msg.amount, BRIDGED_DENOM);
    if IsNonceProcessed(s.store, msg.nonce) then (s, Some(NonceUsed))
    else if |signed| < params.quorumThreshold then (s, Some(TooFewSignatures))
    else if params.supplyCap.None? then (s, Some(BadSupplyCap))
    else if newMinted > params.supplyCap.value then (s, Some(CapExceeded))
    else
      var store := SetCosmosMinted(SetNonceProcessed(s.store, msg.nonce), newMinted);
      var recipient := env.account(msg.receiver);
      if recipient.None? then (State(store, s.bank), Some(BadAddress))
      else if faults.mintFails then (State(store, s.bank), Some(MintFailed))
      else
        var bank := Mint(s.bank, msg.amount);
        if faults.sendFails || !CanPay(bank, MODULE_ACCOUNT, msg.amount) then (State(store, bank), Some(SendFailed))
        else (State(store, Send(bank, MODULE_ACCOUNT, recipient.value, msg.amount)), None)
  }

  function ProcessBridgeOut(env: Environment, s: State, msg: MsgBridgeOut, faults: Faults): (State, Option<Error>) {
    var sender := env.account(msg.sender);
    var burnt := AmountOf(msg.amount, BRIDGED_DENOM);
    var minted := GetCosmosMinted(s.store);
    if sender.None? then (s, Some(BadAddress))
    else if minted < burnt then (s, Some(InsufficientCirculation))
    else if faults.sendFails || !CanPay(s.bank, sender.value, msg.amount) then (s, Some(SendFailed))
    else
      var bank := Send(s.bank, sender.value, MODULE_ACCOUNT, msg.amount);
      if faults.burnFails || !CanPay(bank, MODULE_ACCOUNT, msg.amount) then (State(s.store, bank), Some(BurnFailed))
      else (State(SetCosmosMinted(s.store, minted - burnt), Burn(bank, msg.amount)), None)
  }

  // ---------- Transactions ----------

  datatype Tx =
    | In(msgIn: MsgBridgeIn, faults: Faults)
    | Out(msgOut: MsgBridgeOut, faults: Faults)
    | AddRelayer(relayer: Relayer)
    | RemoveRelayer(address: Address)

  /** The outcome of a transaction: an error rolls every change back. */
  function Deliver(env: Environment, s: State, tx: Tx): (State, Option<Error>) {
    match tx
    case In(msg, faults) =>
      if !ValidateBridgeIn(env, msg) then (s, Some(InvalidMessage))
      else
        var (s', error) := ProcessBridgeIn(env, s, msg, faults);
        (if error.None? then s' else s, error)
    case Out(msg, faults) =>
      if !ValidateBridgeOut(env, msg) then (s, Some(InvalidMessage))
      else
        var (s', error) := ProcessBridgeOut(env, s, msg, faults);
        (if error.None? then s' else s, error)
    case AddRelayer(r) => (s.(store := SetRelayer(s.store, r)), None)
    case RemoveRelayer(a) => (s.(store := DeleteRelayer(s.store, a)), None)
  }

  function Run(env: Environment, s: State, txs: seq<Tx>): State
    decreases |txs|
  {
    if txs == [] then s else Run(env, Deliver(env, s, txs[0]).0, txs[1..])
  }

  predicate Accepted(env: Environment, s: State, tx: Tx) {
    Deliver(env, s, tx).1.None?
  }
}

/** The keeper itself: the same handlers, changing its store and its bank step by step. */
module BridgeKeeper {
  import opened Order
  import opened Prelude
  import opened BridgeTypes
  import opened BridgeNonces
  import opened BridgeLedger

  class Keeper {
    const env: Environment
    var store: Store
    var bank: Bank

    constructor (env: Environment, store: Store, bank: Bank)
      ensures this.env == env && this.store == store && this.bank == bank
    {
      this.env := env;
      this.store := store;
      this.bank := bank;
    }

    function Current(): State
      reads this
    {
      State(store, bank)
    }

    /** The nested signature loop of ProcessBridgeIn. */
    method CountSignatures(hash: Bytes, signatures: seq<Bytes>, relayers: seq<Relayer>) returns (signed: set<Address>)
      ensures signed == Count(env, hash, signatures, relayers, {})
    {
      signed := {};
      for i := 0 to |signatures|
        invariant Count(env, hash, signatures[i..], relayers, signed) == Count(env, hash, signatures, relayers, {})
      {
        var sig := signatures[i];
        assert signatures[i..][1..] == signatures[i + 1..];
        var cleanSig := if |sig| == 65 then sig[..64] else sig;
        ghost var signer := FirstSigner(env, hash, sig, relayers, signed);
        ghost var before := signed;
        var j := 0;
        while j < |relayers|
          invariant 0 <= j <= |relayers|
          invariant signed == before
          invariant signer == FirstSigner(env, hash, sig, relayers[j..], signed)
        {
          var relayer := relayers[j];
          assert relayers[j..][0] == relayer && relayers[j..][1..] == relayers[j + 1..];
          if relayer.address in signed {
            j := j + 1;
            continue;
          }
          if env.verifies(relayer.pubKey, hash, cleanSig) {
            signed := signed + {relayer.address};
            break;
          }
          j := j + 1;
        }
      }
    }

    /** ProcessBridgeIn: the nonce and the counter are written before the last calls that can fail. */
    method HandleBridgeIn(msg: MsgBridgeIn, faults: Faults) returns (error: Option<Error>)
      modifies this
      ensures (Current(), error) == ProcessBridgeIn(env, old(Current()), msg, faults)
    {
      hide Count, GetRelayers, IsNonceProcessed, BridgeNonces.SetNonceProcessed, MessageHash, Mint, Send, CanPay;
      var params := GetParams(store);
      if IsNonceProcessed(store, msg.nonce) {
        return Some(NonceUsed);
      }
      var hash := MessageHash(env, msg);
      var relayers := GetRelayers(store);
      var signed := CountSignatures(hash, msg.signatures, relayers);
      if |signed| < params.quorumThreshold {
        return Some(TooFewSignatures);
      }
      var newMinted := GetCosmosMinted(store) + AmountOf(msg.amount, BRIDGED_DENOM);
      if params.supplyCap.None? {
        return Some(BadSupplyCap);
      }
      if newMinted > params.supplyCap.value {
        return Some(CapExceeded);
      }
      store := SetNonceProcessed(store, msg.nonce);
      store := SetCosmosMinted(store, newMinted);
      var recipient := env.account(msg.receiver);
      if recipient.None? {
        return Some(BadAddress);
      }
      if faults.mintFails {
        return Some(MintFailed);
      }
      bank := Mint(bank, msg.amount);
      if faults.sendFails || !CanPay(bank, MODULE_ACCOUNT, msg.amount) {
        return Some(SendFailed);
      }
      bank := Send(bank, MODULE_ACCOUNT, recipient.value, msg.amount);
      return None;
    }

    /** ProcessBridgeOut */
    method HandleBridgeOut(msg: MsgBridgeOut, faults: Faults) returns (error: Option<Error>)
      modifies this
      ensures (Current(), error) == ProcessBridgeOut(env, old(Current()), msg, faults)
    {
      hide Burn, Send, CanPay;
      var sender := env.account(msg.sender);
      if sender.None? {
        return Some(BadAddress);
      }
      var burnt := AmountOf(msg.amount, BRIDGED_DENOM);
      var minted := GetCosmosMinted(store);
      if minted < burnt {
        return Some(InsufficientCirculation);
      }
      if faults.sendFails || !CanPay(bank, sender.value, msg.amount) {
        return Some(SendFailed);
      }
      bank := Send(bank, sender.value, MODULE_ACCOUNT, msg.amount);
      if faults.burnFails || !CanPay(bank, MODULE_ACCOUNT, msg.amount) {
        return Some(BurnFailed);
      }
      bank := Burn(bank, msg.amount);
      store := SetCosmosMinted(store, minted - burnt);
      return None;
    }

    /** A transaction: validate, handle, and restore the state when handling fails. */
    method DeliverTx(tx: Tx) returns (error: Option<Error>)
      modifies this
      ensures (Current(), error) == Deliver(env, old(Current()), tx)
    {
      hide ProcessBridgeIn, ProcessBridgeOut, ValidateBridgeIn, ValidateBridgeOut;
      hide BridgeLedger.SetRelayer, BridgeLedger.DeleteRelayer;
      var snapshotStore, snapshotBank := store, bank;
      match tx {
        case In(msg, faults) =>
          if !ValidateBridgeIn(env, msg) {
            return Some(InvalidMessage);
          }
          error := HandleBridgeIn(msg, faults);
        case Out(msg, faults) =>
          if !ValidateBridgeOut(env, msg) {
            return Some(InvalidMessage);
          }
          error := HandleBridgeOut(msg, faults);
        case AddRelayer(r) =>
          store := SetRelayer(store, r);
          error := None;
        case RemoveRelayer(a) =>
          store := DeleteRelayer(store, a);
          error := None;
      }
      if error.Some? {
        store, bank := snapshotStore, snapshotBank;
      }
    }
  }
}
