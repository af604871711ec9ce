/** Types, parameters and the signed message of chain/x/bridge/types.go. */
module BridgeTypes {
  import opened Bitwise
  import opened Order
  import opened Prelude

  type Address = Bytes
  type Coins = map<string, int>

  const NONCE_PREFIX: byte := 0x01
  const RELAYER_PREFIX: byte := 0x02
  const PARAMS_PREFIX: byte := 0x03
  const COSMOS_MINTED: Bytes := [99, 111, 115, 109, 111, 115, 95, 109, 105, 110, 116, 101, 100]
  const BRIDGED_DENOM := "uwsov"

  /** `supplyCap` is None when the configured string is not a number. */
  datatype Params = Params(
    standardFinalityDepth: nat,
    largeFinalityDepth: nat,
    quorumThreshold: nat,
    supplyCap: Option<int>,
    lockBoxAddress: string)

  const DEFAULT_PARAMS := Params(15, 50, 3, Some(0), "")

  predicate ValidParams(p: Params) {
    && p.quorumThreshold >= 2
    && p.standardFinalityDepth != 0 && p.largeFinalityDepth != 0
    && p.largeFinalityDepth >= p.standardFinalityDepth
    && p.supplyCap.Some? && p.supplyCap.value > 0
    && p.lockBoxAddress != ""
  }

  datatype Relayer = Relayer(address: Address, pubKey: Bytes)

  datatype MsgBridgeIn = MsgBridgeIn(
    submitter: string, receiver: string, amount: Coins, nonce: Bytes, signatures: seq<Bytes>)

  datatype MsgBridgeOut = MsgBridgeOut(sender: string, bscRecipient: string, amount: Coins)

  /** What the module cannot see: hashing, signature verification and address decoding. */
  datatype Environment = Environment(
    digest: Bytes -> Bytes,
    verifies: (Bytes, Bytes, Bytes) -> bool,
    amountText: Coins -> Bytes,
    receiverText: string -> Bytes,
    account: string -> Option<string>)

  /** Coins that are not empty and all positive. */
  predicate ValidAmount(c: Coins) {
    |c| != 0 && forall d :: d in c ==> c[d] > 0
  }

  function AmountOf(c: Coins, denom: string): int {
    if denom in c then c[denom] else 0
  }

  predicate ValidateBridgeIn(env: Environment, msg: MsgBridgeIn) {
    && env.account(msg.submitter).Some?
    && env.account(msg.receiver).Some?
    && ValidAmount(msg.amount)
    && msg.nonce != []
    && msg.signatures != []
  }

  predicate ValidateBridgeOut(env: Environment, msg: MsgBridgeOut) {
    && env.account(msg.sender).Some?
    && msg.bscRecipient != ""
    && ValidAmount(msg.amount)
  }

  // ---------- The signed message ----------

  /** "SOVEREIGN_BRIDGE_V1_IN" */
  const DOMAIN: Bytes := [83, 79, 86, 69, 82, 69, 73, 71, 78, 95, 66, 82, 73, 68, 71, 69, 95, 86, 49, 95, 73, 78]

  /** A length as four bytes, the high one first; longer lengths wrap around. */
  function Length32(n: nat): (r: Bytes)
    ensures |r| == 4
  {
    [n / 0x1000000 % 256, n / 0x10000 % 256, n / 0x100 % 256, n % 256]
  }

  /** A field preceded by its length. */
  function Field(b: Bytes): Bytes {
    Length32(|b|) + b
  }

  /** The bytes fed to the hash in ComputeBridgeMessageHash. */
  function Preimage(receiver: Bytes, amount: Bytes, nonce: Bytes): Bytes {
    DOMAIN + Field(receiver) + Field(amount) + Field(nonce)
  }

  function MessageHash(env: Environment, msg: MsgBridgeIn): Bytes {
    env.digest(Preimage(env.receiverText(msg.receiver), env.amountText(msg.amount), msg.nonce))
  }

  lemma Length32Injective(a: nat, b: nat)
    requires a < 0x1_0000_0000 && b < 0x1_0000_0000 && Length32(a) == Length32(b)
    ensures a == b
  {
    var x, y := Length32(a), Length32(b);
    Digits32(a);
    Digits32(b);
    assert x[0] == y[0] && x[1] == y[1] && x[2] == y[2] && x[3] == y[3];
  }

  lemma Digits32(a: nat)
    requires a < 0x1_0000_0000
    ensures var x := Length32(a);
            a == 0x1000000 * (x[0] as int) + 0x10000 * (x[1] as int) + 0x100 * (x[2] as int) + (x[3] as int)
  {
    var a1 := a / 256;
    var a2 := a1 / 256;
    assert a / 0x10000 == a2 && a / 0x1000000 == a2 / 256;
  }

  /** A length-prefixed field can be read off the front of a byte string in only one way. */
  lemma FieldIsPrefixFree(a: Bytes, rest: Bytes, b: Bytes, other: Bytes)
    requires |a| < 0x1_0000_0000 && |b| < 0x1_0000_0000
    requires Field(a) + rest == Field(b) + other
    ensures a == b && rest == other
  {
    hide Length32;
    var x, y := Field(a) + rest, Field(b) + other;
    assert x[..4] == Length32(|a|) && y[..4] == Length32(|b|);
    Length32Injective(|a|, |b|);
    assert x[4..4 + |a|] == a && y[4..4 + |b|] == b;
    assert x[4 + |a|..] == rest && y[4 + |b|..] == other;
  }

  /** The number that four bytes stand for, the high one first. */
  function Number32(b: Bytes): nat
    requires |b| == 4
  {
    ((b[0] as nat * 256 + b[1] as nat) * 256 + b[2] as nat) * 256 + b[3] as nat
  }

  const DOMAIN_TEXT := "SOVEREIGN_BRIDGE_V1_IN"

  /** Where the domain, the three lengths and the three fields stand in the hashed bytes. */
  lemma PreimageLayout(r: Bytes, a: Bytes, n: Bytes)
    requires |r| < 0x1_0000_0000 && |a| < 0x1_0000_0000 && |n| < 0x1_0000_0000
    ensures var p, d := Preimage(r, a, n), |DOMAIN_TEXT|;
            && |p| == d + 12 + |r| + |a| + |n|
            && (forall i :: 0 <= i < d ==> p[i] == DOMAIN_TEXT[i] as nat)
            && Number32(p[d..d + 4]) == |r| && p[d + 4..d + 4 + |r|] == r
            && Number32(p[d + 4 + |r|..d + 8 + |r|]) == |a| && p[d + 8 + |r|..d + 8 + |r| + |a|] == a
            && Number32(p[d + 8 + |r| + |a|..d + 12 + |r| + |a|]) == |n| && p[d + 12 + |r| + |a|..] == n
  {
    hide Length32;
    var p, d := Preimage(r, a, n), |DOMAIN_TEXT|;
    assert p[d..d + 4] == Length32(|r|);
    assert p[d + 4 + |r|..d + 8 + |r|] == Length32(|a|);
    assert p[d + 8 + |r| + |a|..d + 12 + |r| + |a|] == Length32(|n|);
    LengthReads(|r|);
    LengthReads(|a|);
    LengthReads(|n|);
  }

  lemma LengthReads(n: nat)
    requires n < 0x1_0000_0000
    ensures Number32(Length32(n)) == n
  {
    Digits32(n);
  }

  /**
   The length prefixes separate the fields: different messages never hash the same bytes, as long as
   no field reaches the 4 GiB at which the prefix wraps around.
   */
  lemma PreimageInjective(r: Bytes, a: Bytes, n: Bytes, r': Bytes, a': Bytes, n': Bytes)
    requires |r| < 0x1_0000_0000 && |a| < 0x1_0000_0000 && |n| < 0x1_0000_0000
    requires |r'| < 0x1_0000_0000 && |a'| < 0x1_0000_0000 && |n'| < 0x1_0000_0000
    ensures Preimage(r, a, n) == Preimage(r', a', n') <==> r == r' && a == a' && n == n'
  {
    hide Field;
    if Preimage(r, a, n) == Preimage(r', a', n') {
      var x, y := Preimage(r, a, n), Preimage(r', a', n');
      assert x[|DOMAIN|..] == Field(r) + (Field(a) + (Field(n) + []));
      assert y[|DOMAIN|..] == Field(r') + (Field(a') + (Field(n') + []));
      FieldIsPrefixFree(r, Field(a) + (Field(n) + []), r', Field(a') + (Field(n') + []));
      FieldIsPrefixFree(a, Field(n) + [], a', Field(n') + []);
      FieldIsPrefixFree(n, [], n', []);
    }
  }
}
