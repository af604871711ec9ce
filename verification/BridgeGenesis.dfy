/** Genesis of chain/x/bridge/module.go, and what its export carries over. */
module BridgeGenesis {
  import opened Bitwise
  import opened Order
  import opened Prelude
  import opened BridgeTypes
  import opened BridgeNonces
  import opened BridgeLedger
  import opened BridgeProperties

  /** `minted` is None when the string in the genesis file is not a number. */
  datatype Genesis = Genesis(params: Params, relayers: seq<Relayer>, minted: Option<int>)

  /** SetParams: None is the error for parameters out of bounds. */
  function SetParams(store: Store, p: Params): Option<Store> {
    if ValidParams(p) then Some(store[[PARAMS_PREFIX] := ParamsEntry(p)]) else None
  }

  function SetRelayers(store: Store, relayers: seq<Relayer>): Store
    decreases |relayers|
  {
    if relayers == [] then store else SetRelayers(SetRelayer(store, relayers[0]), relayers[1..])
  }

  /** InitGenesis on an empty store; None is the panic for invalid parameters or a malformed counter. */
  function InitGenesis(g: Genesis): Option<Store> {
    match SetParams(map[], g.params)
    case None => None
    case Some(store) =>
      if g.minted.None? then None else Some(SetCosmosMinted(SetRelayers(store, g.relayers), g.minted.value))
  }

  function ExportGenesis(store: Store): Genesis {
    Genesis(GetParams(store), GetRelayers(store), Some(GetCosmosMinted(store)))
  }

  ghost predicate DistinctAddresses(relayers: seq<Relayer>) {
    forall i, j :: 0 <= i < j < |relayers| ==> relayers[i].address != relayers[j].address
  }

  // ---------- Import ----------

  lemma {:induction false} SetRelayersEffect(store: Store, relayers: seq<Relayer>, r: Relayer)
    requires StoreInvariant(store) && DistinctAddresses(relayers)
    ensures var store' := SetRelayers(store, relayers);
            && StoreInvariant(store')
            && GetParams(store') == GetParams(store)
            && (forall n :: Processed(store', n) <==> Processed(store, n))
            && (Registered(store', r) <==>
                  r in relayers || ((forall o :: o in relayers ==> o.address != r.address) && Registered(store, r)))
    decreases |relayers|
  {
    hide StoreInvariant, Registered, Processed, BridgeLedger.SetRelayer, GetParams, GetCosmosMinted;
    if relayers == [] {
    } else {
      var first, rest := relayers[0], relayers[1..];
      var next := SetRelayer(store, first);
      WellKeyedPart(store);
      RelayerFrame(store, first, next);
      RelayerSetChanges(store, first, r);
      assert forall i :: 0 <= i < |rest| ==> rest[i] == relayers[i + 1];
      SetRelayersEffect(next, rest, r);
      assert relayers == [first] + rest;
    }
  }

  lemma WellKeyedPart(store: Store)
    requires StoreInvariant(store)
    ensures WellKeyed(store)
  {
  }

  lemma ParamsAlone(p: Params)
    ensures var store: Store := map[[PARAMS_PREFIX] := ParamsEntry(p)];
            && StoreInvariant(store) && GetParams(store) == p
            && (forall n :: !Processed(store, n)) && (forall r :: !Registered(store, r))
  {
    hide FromBytes, ToBytes;
    forall n: nat
      ensures !Processed(map[[PARAMS_PREFIX] := ParamsEntry(p)], n)
    {
      NoBitsInZero(n % 256);
    }
  }

  /**
   A chain starts from genesis exactly when the parameters are in bounds and the counter is a number; it
   then has these parameters, this counter and these relayers, and no nonce is processed.
   */
  lemma GenesisMeaning(g: Genesis, r: Relayer)
    requires DistinctAddresses(g.relayers)
    ensures InitGenesis(g).Some? <==>
              && g.params.quorumThreshold >= 2
              && 0 < g.params.standardFinalityDepth <= g.params.largeFinalityDepth
              && g.params.supplyCap.Some? && g.params.supplyCap.value > 0 && g.params.lockBoxAddress != ""
              && g.minted.Some?
    ensures InitGenesis(g).Some? ==>
              var store := InitGenesis(g).value;
              && StoreInvariant(store) && GetParams(store) == g.params && GetCosmosMinted(store) == g.minted.value
              && (Registered(store, r) <==> r in g.relayers)
              && (forall n :: !Processed(store, n))
  {
    hide StoreInvariant, Registered, Processed, GetParams, GetCosmosMinted, SetRelayers;
    if ValidParams(g.params) && g.minted.Some? {
      var first: Store := map[[PARAMS_PREFIX] := ParamsEntry(g.params)];
      assert SetParams(map[], g.params) == Some(first);
      ParamsAlone(g.params);
      SetRelayersEffect(first, g.relayers, r);
      var second := SetRelayers(first, g.relayers);
      SetMintedFrame(second, g.minted.value);
      MintedKeepsRelayers(second, g.minted.value, r);
    }
  }

  lemma MintedKeepsRelayers(store: Store, amount: int, r: Relayer)
    ensures Registered(SetCosmosMinted(store, amount), r) <==> Registered(store, r)
  {
    assert RelayerKey(r.address)[0] != COSMOS_MINTED[0];
  }

  // ---------- Runs from genesis ----------

  /**
   Every run from a valid genesis keeps the counter between zero and the cap, and every deposit it
   accepts is signed for by at least two different registered addresses.
   */
  lemma RunFromGenesis(env: Environment, g: Genesis, bank: Bank, txs: seq<Tx>, tx: Tx) returns (signers: set<Address>)
    requires InitGenesis(g).Some? && DistinctAddresses(g.relayers)
    requires 0 <= g.minted.GetOr(0) <= g.params.supplyCap.GetOr(0)
    requires tx.In? && Accepted(env, Run(env, State(InitGenesis(g).value, bank), txs), tx)
    ensures var s := Run(env, State(InitGenesis(g).value, bank), txs);
            && 0 <= GetCosmosMinted(s.store) <= g.params.supplyCap.GetOr(0)
            && |signers| >= 2
            && forall a :: a in signers ==>
                 exists sig, key :: sig in tx.msgIn.signatures && Registered(s.store, Relayer(a, key)) &&
                                    Verifies(env, MessageHash(env, tx.msgIn), sig, Relayer(a, key))
  {
    hide BridgeLedger.Run, Accepted, Processed, Registered, Verifies, MessageHash, FromBytes;
    hide GetCosmosMinted, GetParams, InitGenesis;
    GenesisMeaning(g, Relayer([], []));
    var s0 := State(InitGenesis(g).value, bank);
    RunConserves(env, s0, txs);
    signers := AcceptedDepositHasQuorum(env, Run(env, s0, txs), tx);
  }

  // ---------- Export and import ----------

  lemma {:induction false} FromDistinctKeys(store: Store, keys: seq<Bytes>)
    requires WellKeyed(store)
    requires forall i :: 0 <= i < |keys| ==> keys[i] in RelayerKeys(store)
    requires forall i, j :: 0 <= i < j < |keys| ==> keys[i] != keys[j]
    ensures var relayers := RelayersFrom(store, keys);
            && |relayers| == |keys|
            && (forall i :: 0 <= i < |keys| ==> RelayerKey(relayers[i].address) == keys[i])
            && DistinctAddresses(relayers)
    decreases |keys|
  {
    if keys == [] {
    } else {
      assert keys[0] in RelayerKeys(store);
      FromDistinctKeys(store, keys[1..]);
      var rest := RelayersFrom(store, keys[1..]);
      assert RelayersFrom(store, keys) == [store[keys[0]].relayer] + rest;
    }
  }

  lemma ExportedAddressesDistinct(store: Store)
    requires WellKeyed(store)
    ensures DistinctAddresses(GetRelayers(store))
  {
    hide RelayersFrom, SortedKeys;
    var keys := SortedKeys(RelayerKeys(store));
    assert forall i :: 0 <= i < |keys| ==> keys[i] in keys;
    FromDistinctKeys(store, keys);
  }

  /**
   Importing an export restores parameters, counter and relayers, but the bitmap is not exported: the
   processed nonces survive if and only if there were none.
   */
  lemma ImportExport(store: Store, r: Relayer)
    requires StoreInvariant(store) && ValidParams(GetParams(store))
    ensures InitGenesis(ExportGenesis(store)).Some?
    ensures var imported := InitGenesis(ExportGenesis(store)).value;
            && GetParams(imported) == GetParams(store)
            && GetCosmosMinted(imported) == GetCosmosMinted(store)
            && (Registered(imported, r) <==> Registered(store, r))
            && ((forall n :: Processed(imported, n) <==> Processed(store, n)) <==> forall n :: !Processed(store, n))
  {
    hide BitmapSound, WellKeyed, Registered, Processed, GetParams;
    hide GetCosmosMinted, GetRelayers, InitGenesis;
    ExportedAddressesDistinct(store);
    GenesisMeaning(ExportGenesis(store), r);
    GetRelayersMeaning(store, r);
  }
}
