/** The liveness window and the degraded mode of chain/x/certification/keeper.go, as functions. */
module CertificationState {
  import opened Prelude

  type Address(==, !new) = string

  const WINDOW := 10000

  datatype Validator = Validator(address: Address, consensus: Option<Address>)

  /** What a block brings: the rejection flag, the bonded validators in store order, and the votes. */
  datatype Block = Block(rejected: bool, validators: seq<Validator>, commits: map<Address, bool>)

  datatype State = State(
    maxRejections: int,
    rejections: int,
    degraded: bool,
    counts: map<Address, int>,
    bits: map<(Address, int), bool>,
    attested: map<Address, bool>)

  function CountOf(s: State, v: Address): int {
    if v in s.counts then s.counts[v] else 0
  }

  predicate BitOf(s: State, v: Address, height: int) {
    (v, height) in s.bits && s.bits[(v, height)]
  }

  predicate IsAttested(s: State, v: Address) {
    v in s.attested && s.attested[v]
  }

  /** GetRequiredSigningThreshold; heights are not negative, so the division truncates. */
  function Threshold(degraded: bool, height: nat): nat {
    var k := if degraded then 3400 else 5000;
    if height < 100 then 0 else if height < WINDOW then height * k / WINDOW else k
  }

  /** The vote of a validator; a missing vote counts as not signed. */
  predicate Signed(block: Block, v: Validator) {
    v.consensus.Some? && v.consensus.value in block.commits && block.commits[v.consensus.value]
  }

  /** The window update for one validator. */
  function UpdateWindow(s: State, v: Address, signed: bool, height: int): State {
    var count := CountOf(s, v) + (if signed then 1 else 0);
    var bits := s.bits[(v, height) := signed];
    if height > WINDOW then
      var oldHeight := height - WINDOW;
      var slid := if (v, oldHeight) in bits && bits[(v, oldHeight)] then count - 1 else count;
      s.(bits := bits - {(v, oldHeight)}, counts := s.counts[v := slid])
    else
      s.(bits := bits, counts := s.counts[v := count])
  }

  /** A jail order, with the check that raised it. */
  datatype Jail = Liveness(consensus: Address) | Attestation(consensus: Address)

  function JailsFor(s: State, v: Validator, height: nat): seq<Jail>
    requires v.consensus.Some?
  {
    (if CountOf(s, v.address) < Threshold(s.degraded, height) then [Liveness(v.consensus.value)] else [])
    + (if !IsAttested(s, v.address) then [Attestation(v.consensus.value)] else [])
  }

  function UpdateAll(s: State, block: Block, validators: seq<Validator>, height: nat): (State, seq<Jail>)
    decreases |validators|
  {
    if validators == [] then (s, [])
    else
      var v := validators[0];
      if v.consensus.None? then UpdateAll(s, block, validators[1..], height)
      else
        var s1 := UpdateWindow(s, v.address, Signed(block, v), height);
        var (s2, jails) := UpdateAll(s1, block, validators[1..], height);
        (s2, JailsFor(s1, v, height) + jails)
  }

  function UpdateMode(s: State, rejected: bool): State {
    if rejected then
      s.(rejections := s.rejections + 1, degraded := s.degraded || s.rejections + 1 >= s.maxRejections)
    else s.(rejections := 0, degraded := false)
  }

  /** EndBlocker */
  function EndBlock(s: State, block: Block, height: nat): (State, seq<Jail>) {
    UpdateAll(UpdateMode(s, block.rejected), block, block.validators, height)
  }
}

module CertificationKeeper {
  import opened CertificationState

  class Keeper {
    var maxRejections: int
    var rejections: int
    var degraded: bool
    var counts: map<Address, int>
    var bits: map<(Address, int), bool>
    var attested: map<Address, bool>

    constructor (s: State)
      ensures Current() == s
    {
      maxRejections, rejections, degraded := s.maxRejections, s.rejections, s.degraded;
      counts, bits, attested := s.counts, s.bits, s.attested;
    }

    function Current(): State
      reads this
    {
      State(maxRejections, rejections, degraded, counts, bits, attested)
    }

    method EndBlocker(block: Block, height: nat) returns (jails: seq<Jail>)
      modifies this
      ensures (Current(), jails) == EndBlock(old(Current()), block, height)
    {
      hide Threshold, UpdateWindow, JailsFor;
      if block.rejected {
        rejections := rejections + 1;
        if rejections >= maxRejections {
          degraded := true;
        }
      } else {
        rejections := 0;
        if degraded {
          degraded := false;
        }
      }
      assert Current() == UpdateMode(old(Current()), block.rejected);
      jails := UpdateValidators(block, height);
    }

    /** The callback of IterateLastValidatorPowers, for every bonded validator. */
    method UpdateValidators(block: Block, height: nat) returns (jails: seq<Jail>)
      modifies this`counts, this`bits
      ensures (Current(), jails) == UpdateAll(old(Current()), block, block.validators, height)
    {
      hide Threshold, UpdateWindow, JailsFor, Signed;
      ghost var all := UpdateAll(Current(), block, block.validators, height);
      jails := [];
      var i := 0;
      assert block.validators[0..] == block.validators;
      while i < |block.validators|
        invariant 0 <= i <= |block.validators|
        invariant maxRejections == old(maxRejections) && rejections == old(rejections)
        invariant degraded == old(degraded) && attested == old(attested)
        invariant UpdateAll(Current(), block, block.validators[i..], height).0 == all.0
        invariant jails + UpdateAll(Current(), block, block.validators[i..], height).1 == all.1
      {
        var v := block.validators[i];
        assert block.validators[i..][0] == v && block.validators[i..][1..] == block.validators[i + 1..];
        i := i + 1;
        if v.consensus.None? {
          continue;
        }
        ghost var tail := UpdateAll(Current(), block, block.validators[i - 1..], height).1;
        ghost var prefix := jails;
        UpdateValidator(v.address, Signed(block, v), height);
        var own := CheckValidator(v, height);
        jails := jails + own;
        ghost var more := UpdateAll(Current(), block, block.validators[i..], height).1;
        assert tail == own + more;
        assert prefix + (own + more) == jails + more;
      }
      assert block.validators[i..] == [];
      assert jails + [] == jails;
    }

    /** The liveness and the attestation check of one validator. */
    method CheckValidator(v: Validator, height: nat) returns (own: seq<Jail>)
      requires v.consensus.Some?
      ensures own == JailsFor(Current(), v, height)
    {
      hide Threshold, CountOf, IsAttested;
      own := [];
      var threshold := Threshold(degraded, height);
      if CountOf(Current(), v.address) < threshold {
        own := own + [Liveness(v.consensus.value)];
      }
      if !IsAttested(Current(), v.address) {
        own := own + [Attestation(v.consensus.value)];
      }
    }

    /** Set the new bit, slide the old one out, store the count. */
    method UpdateValidator(v: Address, signed: bool, height: int)
      modifies this`counts, this`bits
      ensures Current() == UpdateWindow(old(Current()), v, signed, height)
    {
      var currentCount := CountOf(Current(), v);
      if signed {
        currentCount := currentCount + 1;
        bits := bits[(v, height) := true];
      } else {
        bits := bits[(v, height) := false];
      }
      if height > WINDOW {
        var oldHeight := height - WINDOW;
        if (v, oldHeight) in bits && bits[(v, oldHeight)] {
          currentCount := currentCount - 1;
        }
        bits := bits - {(v, oldHeight)};
      }
      counts := counts[v := currentCount];
    }

    /** The recount of WindowConsistencyInvariant for one validator. */
    method Recount(v: Address, height: nat) returns (actual: nat)
      ensures actual == |WindowBits(Current(), v, height)|
    {
      hide BitOf, BitsBetween;
      var startHeight: nat := if height > WINDOW then height - WINDOW + 1 else 1;
      actual := 0;
      BitsEmpty(Current(), v, startHeight);
      var h: nat := startHeight;
      while h <= height
        invariant startHeight <= h && (h <= height + 1 || h == startHeight)
        invariant actual == |BitsBetween(Current(), v, startHeight, h)|
      {
        BitsStep(Current(), v, startHeight, h);
        if BitOf(Current(), v, h) {
          actual := actual + 1;
        }
        h := h + 1;
      }
      if h > height + 1 {
        BitsEmpty(Current(), v, startHeight);
      }
      WindowIsBetween(Current(), v, height);
    }

    /** WindowConsistencyInvariant: true when some bonded validator's count is off. */
    method WindowBreached(validators: seq<Address>, height: nat) returns (breached: bool)
      ensures breached <==>
                exists i :: 0 <= i < |validators| &&
                            CountOf(Current(), validators[i]) != |WindowBits(Current(), validators[i], height)|
    {
      hide WindowBits;
      breached := false;
      for i := 0 to |validators|
        invariant !breached
        invariant forall j :: 0 <= j < i ==>
                    CountOf(Current(), validators[j]) == |WindowBits(Current(), validators[j], height)|
      {
        var actual := Recount(validators[i], height);
        if CountOf(Current(), validators[i]) != actual {
          breached := true;
          break;
        }
      }
    }
  }

  /** The heights from `lo` up to `hi`, exclusively, that hold a true bit. */
  ghost function BitsBetween(s: State, v: Address, lo: nat, hi: nat): set<nat> {
    set i: nat | lo <= i < hi && BitOf(s, v, i)
  }

  lemma BitsEmpty(s: State, v: Address, lo: nat)
    ensures forall hi: nat :: hi <= lo ==> BitsBetween(s, v, lo, hi) == {}
  {
  }

  lemma BitsStep(s: State, v: Address, lo: nat, hi: nat)
    requires lo <= hi
    ensures |BitsBetween(s, v, lo, hi + 1)| == |BitsBetween(s, v, lo, hi)| + (if BitOf(s, v, hi) then 1 else 0)
  {
    hide BitOf;
    if BitOf(s, v, hi) {
      assert BitsBetween(s, v, lo, hi + 1) == BitsBetween(s, v, lo, hi) + {hi};
    } else {
      assert BitsBetween(s, v, lo, hi + 1) == BitsBetween(s, v, lo, hi);
    }
  }

  lemma WindowIsBetween(s: State, v: Address, height: nat)
    ensures WindowBits(s, v, height) ==
              BitsBetween(s, v, if height > WINDOW then height - WINDOW + 1 else 1, height + 1)
  {
    hide BitOf;
  }

  /** The heights in the window that hold a true bit. */
  ghost function WindowBits(s: State, v: Address, height: nat): set<nat> {
    var startHeight := if height > WINDOW then height - WINDOW + 1 else 1;
    set i: nat | startHeight <= i <= height && BitOf(s, v, i)
  }
}

/** The liveness window over whole runs, compared with the history of blocks. */
module CertificationProperties {
  import opened Prelude
  import opened CertificationState
  import opened CertificationKeeper

  // ---------- The history ----------

  /** The validator store has one entry per address. */
  ghost predicate WellFormed(block: Block) {
    forall i, j :: 0 <= i < j < |block.validators| ==> block.validators[i].address != block.validators[j].address
  }

  /** The validator is bonded, and its record can be read. */
  ghost predicate ActiveIn(validators: seq<Validator>, v: Address) {
    exists i :: 0 <= i < |validators| && validators[i].address == v && validators[i].consensus.Some?
  }

  ghost predicate SignedIn(block: Block, validators: seq<Validator>, v: Address) {
    exists i :: 0 <= i < |validators| && validators[i].address == v && validators[i].consensus.Some? &&
      Signed(block, validators[i])
  }

  ghost predicate ActiveAt(blocks: seq<Block>, k: nat, v: Address)
    requires k < |blocks|
  {
    ActiveIn(blocks[k].validators, v)
  }

  ghost predicate SignedAt(blocks: seq<Block>, k: nat, v: Address)
    requires k < |blocks|
  {
    SignedIn(blocks[k], blocks[k].validators, v)
  }

  function Genesis(maxRejections: int, attested: map<Address, bool>): State {
    State(maxRejections, 0, false, map[], map[], attested)
  }

  /** The state after the blocks, the first of which has height `start`. */
  function Run(g: State, start: nat, blocks: seq<Block>): State
    decreases |blocks|
  {
    if blocks == [] then g
    else EndBlock(Run(g, start, blocks[..|blocks| - 1]), blocks[|blocks| - 1], start + |blocks| - 1).0
  }

  /** A signed block whose bit is still stored: it has not slid out while the validator was active. */
  ghost predicate Retained(blocks: seq<Block>, k: nat, v: Address)
    requires k < |blocks|
  {
    SignedAt(blocks, k, v) && !(k + WINDOW < |blocks| && ActiveAt(blocks, k + WINDOW, v))
  }

  ghost function RetainedSet(blocks: seq<Block>, v: Address): set<nat> {
    set k: nat | k < |blocks| && Retained(blocks, k, v)
  }

  /** The signed blocks among the last WINDOW ones. */
  ghost function WindowSet(blocks: seq<Block>, v: Address): set<nat> {
    set k: nat | k < |blocks| && |blocks| <= k + WINDOW && SignedAt(blocks, k, v)
  }

  // ---------- One block ----------

  /** A bit of a validator after it was updated at the given height. */
  ghost predicate BitAfter(s: State, v: Address, h: int, height: int, signed: bool) {
    if h == height then signed else BitOf(s, v, h) && !(height > WINDOW && h == height - WINDOW)
  }

  lemma UpdateWindowEffect(s: State, v: Address, signed: bool, height: int, u: Address, h: int)
    requires height >= 1
    ensures var s' := UpdateWindow(s, v, signed, height);
            && s'.degraded == s.degraded && s'.rejections == s.rejections
            && s'.maxRejections == s.maxRejections && s'.attested == s.attested
            && (u != v ==> CountOf(s', u) == CountOf(s, u) && (BitOf(s', u, h) <==> BitOf(s, u, h)))
            && (BitOf(s', v, h) <==> BitAfter(s, v, h, height, signed))
            && CountOf(s', v) == CountOf(s, v) + (if signed then 1 else 0)
                                 - (if height > WINDOW && BitOf(s, v, height - WINDOW) then 1 else 0)
  {
  }

  /** What a block does to one validator. */
  lemma {:induction false} UpdateAllEffect(
      s: State, block: Block, validators: seq<Validator>, height: nat, v: Address, h: int)
    requires height >= 1
    requires forall i, j :: 0 <= i < j < |validators| ==> validators[i].address != validators[j].address
    ensures var s' := UpdateAll(s, block, validators, height).0;
            var signed := SignedIn(block, validators, v);
            && s'.degraded == s.degraded && s'.rejections == s.rejections
            && s'.maxRejections == s.maxRejections && s'.attested == s.attested
            && if ActiveIn(validators, v) then
                 && (BitOf(s', v, h) <==> BitAfter(s, v, h, height, signed))
                 && CountOf(s', v) == CountOf(s, v) + (if signed then 1 else 0)
                                      - (if height > WINDOW && BitOf(s, v, height - WINDOW) then 1 else 0)
               else (BitOf(s', v, h) <==> BitOf(s, v, h)) && CountOf(s', v) == CountOf(s, v)
    decreases |validators|
  {
    hide UpdateWindow, CountOf, BitOf, Signed, JailsFor;
    if validators == [] {
    } else {
      var first, rest := validators[0], validators[1..];
      assert forall i :: 0 <= i < |rest| ==> rest[i] == validators[i + 1];
      HeadOrTail(block, validators, v);
      var s1 := if first.consensus.None? then s else UpdateWindow(s, first.address, Signed(block, first), height);
      if first.consensus.Some? {
        UpdateWindowEffect(s, first.address, Signed(block, first), height, v, h);
        UpdateWindowEffect(s, first.address, Signed(block, first), height, v, height - WINDOW);
      }
      UpdateAllEffect(s1, block, rest, height, v, h);
      if first.address == v {
        NotInTail(block, validators, v);
      }
    }
  }

  lemma HeadOrTail(block: Block, validators: seq<Validator>, v: Address)
    requires validators != []
    ensures ActiveIn(validators, v) <==>
              (validators[0].address == v && validators[0].consensus.Some?) || ActiveIn(validators[1..], v)
    ensures SignedIn(block, validators, v) <==>
              (validators[0].address == v && validators[0].consensus.Some? && Signed(block, validators[0])) ||
                SignedIn(block, validators[1..], v)
  {
    hide Signed;
    assert forall i :: 0 <= i < |validators[1..]| ==> validators[1..][i] == validators[i + 1];
    if i :| 0 <= i < |validators| && validators[i].address == v && validators[i].consensus.Some? {
      if i > 0 {
        assert validators[1..][i - 1] == validators[i];
      }
    }
    if i :| 0 <= i < |validators| && validators[i].address == v && validators[i].consensus.Some? &&
              Signed(block, validators[i]) {
      if i > 0 {
        assert validators[1..][i - 1] == validators[i];
      }
    }
  }

  lemma NotInTail(block: Block, validators: seq<Validator>, v: Address)
    requires validators != [] && validators[0].address == v
    requires forall i, j :: 0 <= i < j < |validators| ==> validators[i].address != validators[j].address
    ensures !ActiveIn(validators[1..], v) && !SignedIn(block, validators[1..], v)
  {
    hide Signed;
    assert forall i :: 0 <= i < |validators[1..]| ==> validators[1..][i] == validators[i + 1];
  }

  // ---------- Runs ----------

  /**
   After any run the stored bits of a validator are exactly the retained signed blocks, and the stored
   count is their number.
   */
  lemma {:induction false} CountIsRetained(g: State, start: nat, blocks: seq<Block>, v: Address)
    requires g == Genesis(g.maxRejections, g.attested) && start >= 1
    requires forall k :: 0 <= k < |blocks| ==> WellFormed(blocks[k])
    ensures var s := Run(g, start, blocks);
            && (forall h :: BitOf(s, v, h) <==> 0 <= h - start < |blocks| && Retained(blocks, h - start, v))
            && CountOf(s, v) == |RetainedSet(blocks, v)|
    decreases |blocks|
  {
    hide EndBlock, BitOf, CountOf, Retained;
    if blocks == [] {
      GenesisEmpty(g, v);
      assert RetainedSet(blocks, v) == {};
    } else {
      var n := |blocks| - 1;
      var before := blocks[..n];
      assert forall k :: 0 <= k < n ==> before[k] == blocks[k];
      CountIsRetained(g, start, before, v);
      var s, s' := Run(g, start, before), Run(g, start, blocks);
      forall h
        ensures BitOf(s', v, h) <==> 0 <= h - start < |blocks| && Retained(blocks, h - start, v)
      {
        BlockEffect(s, blocks[n], start + n, v, h);
        if 0 <= h - start < n {
          RetainedStep(blocks, h - start, v);
        } else if h - start == n {
          RetainedLast(blocks, v);
        }
      }
      BlockEffect(s, blocks[n], start + n, v, start + n);
      RetainedSetStep(blocks, v);
    }
  }

  lemma GenesisEmpty(g: State, v: Address)
    requires g == Genesis(g.maxRejections, g.attested)
    ensures CountOf(g, v) == 0 && forall h :: !BitOf(g, v, h)
  {
  }

  lemma BlockEffect(s: State, block: Block, height: nat, v: Address, h: int)
    requires height >= 1 && WellFormed(block)
    ensures var s' := EndBlock(s, block, height).0;
            var signed := SignedIn(block, block.validators, v);
            if ActiveIn(block.validators, v) then
              && (BitOf(s', v, h) <==> BitAfter(s, v, h, height, signed))
              && CountOf(s', v) == CountOf(s, v) + (if signed then 1 else 0)
                                   - (if height > WINDOW && BitOf(s, v, height - WINDOW) then 1 else 0)
            else (BitOf(s', v, h) <==> BitOf(s, v, h)) && CountOf(s', v) == CountOf(s, v)
  {
    hide UpdateAll, ActiveIn, SignedIn;
    UpdateAllEffect(UpdateMode(s, block.rejected), block, block.validators, height, v, h);
  }

  /** An older block stays retained unless it slides out of the window in the last block. */
  lemma RetainedStep(blocks: seq<Block>, k: nat, v: Address)
    requires k < |blocks| - 1
    ensures var n := |blocks| - 1;
            Retained(blocks, k, v) <==> Retained(blocks[..n], k, v) && !(k + WINDOW == n && ActiveAt(blocks, n, v))
  {
    hide ActiveIn, SignedIn;
  }

  lemma RetainedLast(blocks: seq<Block>, v: Address)
    requires blocks != []
    ensures Retained(blocks, |blocks| - 1, v) <==> SignedAt(blocks, |blocks| - 1, v)
  {
    hide ActiveIn, SignedIn;
  }

  lemma RetainedSetStep(blocks: seq<Block>, v: Address)
    requires blocks != []
    ensures var n := |blocks| - 1;
            |RetainedSet(blocks, v)| == |RetainedSet(blocks[..n], v)| + (if SignedAt(blocks, n, v) then 1 else 0)
              - (if ActiveAt(blocks, n, v) && n >= WINDOW && Retained(blocks[..n], n - WINDOW, v) then 1 else 0)
  {
    hide Retained, ActiveIn, SignedIn;
    var n := |blocks| - 1;
    var r := RetainedSet(blocks[..n], v);
    var slid: set<nat> :=
      if ActiveAt(blocks, n, v) && n >= WINDOW && Retained(blocks[..n], n - WINDOW, v) then {n - WINDOW} else {};
    var added: set<nat> := if SignedAt(blocks, n, v) then {n} else {};
    forall k: nat
      ensures k in RetainedSet(blocks, v) <==> k in (r - slid) + added
    {
      if k < n {
        RetainedStep(blocks, k, v);
      } else if k == n {
        RetainedLast(blocks, v);
      }
    }
    assert n !in r;
    SlideSize(r, slid, added, RetainedSet(blocks, v));
  }

  lemma SlideSize(r: set<nat>, slid: set<nat>, added: set<nat>, all: set<nat>)
    requires slid <= r && r !! added
    requires forall k: nat :: k in all <==> k in (r - slid) + added
    ensures |all| == |r| - |slid| + |added|
  {
    assert all == (r - slid) + added;
    assert |r - slid| == |r| - |slid|;
  }

  /**
   The count never undercounts the window; and it is the window sum exactly when, for every signed
   block that left the window, the validator was active in the block in which it left.
   */
  lemma WindowExactIff(g: State, start: nat, blocks: seq<Block>, v: Address)
    requires g == Genesis(g.maxRejections, g.attested) && start >= 1
    requires forall k :: 0 <= k < |blocks| ==> WellFormed(blocks[k])
    ensures CountOf(Run(g, start, blocks), v) >= |WindowSet(blocks, v)|
    ensures CountOf(Run(g, start, blocks), v) == |WindowSet(blocks, v)| <==>
              forall k :: 0 <= k < |blocks| - WINDOW && SignedAt(blocks, k, v) ==> ActiveAt(blocks, k + WINDOW, v)
  {
    hide Run, CountOf, BitOf, ActiveAt, SignedAt;
    CountIsRetained(g, start, blocks, v);
    var w, r := WindowSet(blocks, v), RetainedSet(blocks, v);
    assert w <= r;
    SubsetSize(w, r);
    if forall k :: 0 <= k < |blocks| - WINDOW && SignedAt(blocks, k, v) ==> ActiveAt(blocks, k + WINDOW, v) {
      assert r == w;
    } else {
      var k :| 0 <= k < |blocks| - WINDOW && SignedAt(blocks, k, v) && !ActiveAt(blocks, k + WINDOW, v);
      assert k in r && k !in w;
    }
  }

  lemma SubsetSize(a: set<nat>, b: set<nat>)
    requires a <= b
    ensures |a| <= |b| && (|a| == |b| <==> a == b)
  {
    assert b == a + (b - a);
  }

  /** For a validator that has been active in every block since its first, the count is the window sum. */
  lemma GaplessIsExact(g: State, start: nat, blocks: seq<Block>, v: Address)
    requires g == Genesis(g.maxRejections, g.attested) && start >= 1
    requires forall k :: 0 <= k < |blocks| ==> WellFormed(blocks[k])
    requires forall j, k :: 0 <= j <= k < |blocks| && ActiveAt(blocks, j, v) ==> ActiveAt(blocks, k, v)
    ensures CountOf(Run(g, start, blocks), v) == |WindowSet(blocks, v)|
  {
    hide Run, CountOf, ActiveIn, SignedIn;
    WindowExactIff(g, start, blocks, v);
    forall k | 0 <= k < |blocks| - WINDOW && SignedAt(blocks, k, v)
      ensures ActiveAt(blocks, k + WINDOW, v)
    {
      SignedIsActive(blocks, k, v);
    }
  }

  lemma SignedIsActive(blocks: seq<Block>, k: nat, v: Address)
    requires k < |blocks| && SignedAt(blocks, k, v)
    ensures ActiveAt(blocks, k, v)
  {
    hide Signed;
  }

  /** The recount of the invariant check finds the window sum, so a breach means a gap as above. */
  lemma RecountIsWindow(g: State, start: nat, blocks: seq<Block>, v: Address)
    requires g == Genesis(g.maxRejections, g.attested) && start >= 1 && blocks != []
    requires forall k :: 0 <= k < |blocks| ==> WellFormed(blocks[k])
    ensures |WindowBits(Run(g, start, blocks), v, start + |blocks| - 1)| == |WindowSet(blocks, v)|
  {
    hide *;
    CountIsRetained(g, start, blocks, v);
    WindowOfBits(Run(g, start, blocks), start, blocks, v);
  }

  lemma WindowOfBits(s: State, start: nat, blocks: seq<Block>, v: Address)
    requires start >= 1 && blocks != []
    requires forall h :: BitOf(s, v, h) <==> 0 <= h - start < |blocks| && Retained(blocks, h - start, v)
    ensures |WindowBits(s, v, start + |blocks| - 1)| == |WindowSet(blocks, v)|
  {
    hide BitOf, Retained, WindowSet;
    var b, w := WindowBits(s, v, start + |blocks| - 1), WindowSet(blocks, v);
    forall k: nat
      ensures k in w <==> k + start in b
    {
      if k < |blocks| {
        WindowIsRetained(blocks, k, v);
      } else {
        WindowSetBounds(blocks, v);
      }
    }
    ShiftedSize(b, w, start);
  }

  lemma WindowSetBounds(blocks: seq<Block>, v: Address)
    ensures forall k: nat :: k in WindowSet(blocks, v) ==> k < |blocks|
  {
  }

  lemma WindowIsRetained(blocks: seq<Block>, k: nat, v: Address)
    requires k < |blocks|
    ensures k in WindowSet(blocks, v) <==> |blocks| <= k + WINDOW && Retained(blocks, k, v)
  {
    hide SignedAt, ActiveAt;
  }

  lemma {:induction false} ShiftedSize(b: set<nat>, w: set<nat>, d: nat)
    requires forall h: nat :: h in b ==> h >= d
    requires forall k: nat :: k in w <==> k + d in b
    ensures |b| == |w|
    decreases b
  {
    if b == {} {
      assert forall k: nat :: k !in w;
    } else {
      var h: nat :| h in b;
      var k: nat := h - d;
      assert k in w;
      ShiftedSize(b - {h}, w - {k}, d);
    }
  }

  // ---------- Who is jailed ----------

  /** The threshold never exceeds the number of blocks so far, is lower in degraded mode, and grows with the height. */
  lemma ThresholdBounds(degraded: bool, low: nat, height: nat)
    requires low <= height
    ensures Threshold(degraded, height) <= height && Threshold(degraded, height) <= 5000
    ensures Threshold(true, height) <= Threshold(false, height)
    ensures Threshold(degraded, low) <= Threshold(degraded, height)
  {
    if 100 <= low && height < WINDOW {
      var k := if degraded then 3400 else 5000;
      assert low * k <= height * k;
    }
  }

  /** No two validators have the same readable consensus key. */
  ghost predicate DistinctConsensus(validators: seq<Validator>) {
    forall j, k :: 0 <= j < k < |validators| && validators[j].consensus.Some? ==>
                     validators[j].consensus != validators[k].consensus
  }

  /**
   The threshold is 50%, in degraded mode 34%, of the blocks so far rounded down, from height 100 to the
   length of the window, and of the window from then on.
   */
  lemma ThresholdIsShare(degraded: bool, height: nat)
    ensures height < 100 ==> Threshold(degraded, height) == 0
    ensures 100 <= height < 10000 ==>
              var percent := if degraded then 34 else 50;
              Threshold(degraded, height) * 100 <= height * percent < (Threshold(degraded, height) + 1) * 100
    ensures height >= 10000 ==> Threshold(degraded, height) == if degraded then 3400 else 5000
  {
    if 100 <= height < 10000 {
      var k := if degraded then 3400 else 5000;
      var t := height * k / 10000;
      assert t * 10000 <= height * k < (t + 1) * 10000;
    }
  }

  lemma {:induction false} JailedExactly(s: State, block: Block, validators: seq<Validator>, height: nat, i: nat)
    requires height >= 1 && i < |validators| && validators[i].consensus.Some?
    requires forall j, k :: 0 <= j < k < |validators| ==> validators[j].address != validators[k].address
    requires DistinctConsensus(validators)
    ensures var (s', jails) := UpdateAll(s, block, validators, height);
            Liveness(validators[i].consensus.value) in jails <==>
              CountOf(s', validators[i].address) < Threshold(s.degraded, height)
    decreases |validators|
  {
    hide UpdateWindow, CountOf, BitOf, Threshold, Signed;
    var first, rest := validators[0], validators[1..];
    var v := validators[i];
    assert forall j :: 0 <= j < |rest| ==> rest[j] == validators[j + 1];
    var s1 := if first.consensus.None? then s else UpdateWindow(s, first.address, Signed(block, first), height);
    if first.consensus.Some? {
      UpdateWindowEffect(s, first.address, Signed(block, first), height, first.address, 0);
    }
    if i > 0 {
      JailedExactly(s1, block, rest, height, i - 1);
    } else {
      NotInTail(block, validators, first.address);
      UpdateAllEffect(s1, block, rest, height, first.address, 0);
      OnlyOwnJails(s1, block, rest, height, v.consensus.value);
    }
  }

  lemma {:induction false} OnlyOwnJails(s: State, block: Block, validators: seq<Validator>, height: nat, c: Address)
    requires forall j :: 0 <= j < |validators| ==> validators[j].consensus != Some(c)
    ensures Liveness(c) !in UpdateAll(s, block, validators, height).1
    decreases |validators|
  {
    hide UpdateWindow, CountOf, Threshold, Signed, IsAttested;
    if validators == [] {
    } else {
      var s1 := UpdateWindow(s, validators[0].address, Signed(block, validators[0]), height);
      OnlyOwnJails(s, block, validators[1..], height, c);
      OnlyOwnJails(s1, block, validators[1..], height, c);
    }
  }

  lemma {:induction false} NoAttestationJail(
      s: State, block: Block, validators: seq<Validator>, height: nat, c: Address)
    requires forall j :: 0 <= j < |validators| ==> validators[j].consensus != Some(c)
    ensures Attestation(c) !in UpdateAll(s, block, validators, height).1
    decreases |validators|
  {
    hide UpdateWindow, CountOf, Threshold, Signed, IsAttested;
    if validators == [] {
    } else {
      var s1 := UpdateWindow(s, validators[0].address, Signed(block, validators[0]), height);
      NoAttestationJail(s, block, validators[1..], height, c);
      NoAttestationJail(s1, block, validators[1..], height, c);
    }
  }

  /** A validator is jailed for its attestation exactly when it is not attested, whatever the others do. */
  lemma {:induction false} AttestationJailedExactly(
      s: State, block: Block, validators: seq<Validator>, height: nat, i: nat)
    requires i < |validators| && validators[i].consensus.Some? && DistinctConsensus(validators)
    ensures Attestation(validators[i].consensus.value) in UpdateAll(s, block, validators, height).1 <==>
              !(validators[i].address in s.attested && s.attested[validators[i].address])
    decreases |validators|
  {
    hide UpdateWindow, CountOf, Threshold, Signed;
    var first, rest := validators[0], validators[1..];
    assert forall j :: 0 <= j < |rest| ==> rest[j] == validators[j + 1];
    var s1 := if first.consensus.None? then s else UpdateWindow(s, first.address, Signed(block, first), height);
    assert s1.attested == s.attested by {
      WindowKeepsAttested(s, first.address, Signed(block, first), height);
    }
    if i > 0 {
      AttestationJailedExactly(s1, block, rest, height, i - 1);
    } else {
      NoAttestationJail(s1, block, rest, height, first.consensus.value);
    }
  }

  lemma WindowKeepsAttested(s: State, v: Address, signed: bool, height: int)
    ensures UpdateWindow(s, v, signed, height).attested == s.attested
  {
  }

  lemma {:induction false} UpdatesKeepAttested(s: State, block: Block, validators: seq<Validator>, height: nat)
    ensures UpdateAll(s, block, validators, height).0.attested == s.attested
    decreases |validators|
  {
    hide UpdateWindow, JailsFor;
    if validators == [] {
    } else {
      WindowKeepsAttested(s, validators[0].address, Signed(block, validators[0]), height);
      UpdatesKeepAttested(s, block, validators[1..], height);
      var s1 := UpdateWindow(s, validators[0].address, Signed(block, validators[0]), height);
      UpdatesKeepAttested(s1, block, validators[1..], height);
    }
  }

  lemma {:induction false} RunKeepsAttested(g: State, start: nat, blocks: seq<Block>)
    ensures Run(g, start, blocks).attested == g.attested
    decreases |blocks|
  {
    hide UpdateAll;
    if blocks == [] {
    } else {
      var n := |blocks| - 1;
      RunKeepsAttested(g, start, blocks[..n]);
      var s := UpdateMode(Run(g, start, blocks[..n]), blocks[n].rejected);
      UpdatesKeepAttested(s, blocks[n], blocks[n].validators, start + n);
    }
  }

  /** Over every run, in its last block: exactly the validators not attested at genesis are jailed for it. */
  lemma AttestationOverRuns(g: State, start: nat, blocks: seq<Block>, i: nat)
    requires blocks != [] && DistinctConsensus(blocks[|blocks| - 1].validators)
    requires i < |blocks[|blocks| - 1].validators| && blocks[|blocks| - 1].validators[i].consensus.Some?
    ensures var n := |blocks| - 1;
            var v := blocks[n].validators[i];
            var jails := EndBlock(Run(g, start, blocks[..n]), blocks[n], start + n).1;
            Attestation(v.consensus.value) in jails <==> !(v.address in g.attested && g.attested[v.address])
  {
    hide UpdateAll, Run;
    var n := |blocks| - 1;
    RunKeepsAttested(g, start, blocks[..n]);
    var s := UpdateMode(Run(g, start, blocks[..n]), blocks[n].rejected);
    AttestationJailedExactly(s, blocks[n], blocks[n].validators, start + n, i);
  }

  /** Validators with distinct addresses and, where they can be read, distinct consensus keys. */
  ghost predicate DistinctKeys(block: Block) {
    WellFormed(block) && DistinctConsensus(block.validators)
  }

  /**
   A validator active without gap is jailed for liveness in the last block of a run exactly when it
   signed fewer of the last WINDOW blocks than the threshold asks for.
   */
  lemma GaplessJailedExactly(g: State, start: nat, blocks: seq<Block>, i: nat)
    requires g == Genesis(g.maxRejections, g.attested) && start >= 1 && blocks != []
    requires forall k :: 0 <= k < |blocks| ==> DistinctKeys(blocks[k])
    requires i < |blocks[|blocks| - 1].validators| && blocks[|blocks| - 1].validators[i].consensus.Some?
    requires var v := blocks[|blocks| - 1].validators[i].address;
             forall j, k :: 0 <= j <= k < |blocks| && ActiveAt(blocks, j, v) ==> ActiveAt(blocks, k, v)
    ensures var n := |blocks| - 1;
            var v := blocks[n].validators[i];
            var (s', jails) := EndBlock(Run(g, start, blocks[..n]), blocks[n], start + n);
            Liveness(v.consensus.value) in jails <==> |WindowSet(blocks, v.address)| < Threshold(s'.degraded, start + n)
  {
    hide UpdateAll, CountOf, BitOf, Threshold, ActiveAt, SignedAt;
    var n := |blocks| - 1;
    var s := UpdateMode(Run(g, start, blocks[..n]), blocks[n].rejected);
    JailedExactly(s, blocks[n], blocks[n].validators, start + n, i);
    UpdateAllEffect(s, blocks[n], blocks[n].validators, start + n, "", 0);
    GaplessIsExact(g, start, blocks, blocks[n].validators[i].address);
  }

  /**
   A validator that becomes active for the first time has signed at most one block of the window: it is
   jailed at once, whatever it signs, if and only if the height is 100 or more.
   */
  lemma NewcomerJailedIff(g: State, start: nat, blocks: seq<Block>, i: nat, v: Address)
    requires g == Genesis(g.maxRejections, g.attested) && start >= 1 && blocks != []
    requires forall k :: 0 <= k < |blocks| ==> DistinctKeys(blocks[k])
    requires i < |blocks[|blocks| - 1].validators| && blocks[|blocks| - 1].validators[i].consensus.Some?
    requires v == blocks[|blocks| - 1].validators[i].address
    requires forall k :: 0 <= k < |blocks| - 1 ==> !ActiveAt(blocks, k, v)
    ensures var n := |blocks| - 1;
            var jails := EndBlock(Run(g, start, blocks[..n]), blocks[n], start + n).1;
            Liveness(blocks[n].validators[i].consensus.value) in jails <==> start + n >= 100
  {
    hide EndBlock, CountOf, ActiveIn, SignedIn, Run;
    var n := |blocks| - 1;
    NowActive(blocks, i);
    GaplessJailedExactly(g, start, blocks, i);
    forall k | k in WindowSet(blocks, v)
      ensures k == n
    {
      SignedIsActive(blocks, k, v);
    }
    AtMostOne(WindowSet(blocks, v), n);
    ThresholdOfNewcomer(true, start + n);
    ThresholdOfNewcomer(false, start + n);
  }

  lemma NowActive(blocks: seq<Block>, i: nat)
    requires blocks != [] && i < |blocks[|blocks| - 1].validators| && blocks[|blocks| - 1].validators[i].consensus.Some?
    ensures ActiveAt(blocks, |blocks| - 1, blocks[|blocks| - 1].validators[i].address)
  {
  }

  lemma AtMostOne(a: set<nat>, n: nat)
    requires forall k :: k in a ==> k == n
    ensures |a| <= 1
  {
    assert a <= {n};
    SubsetSize(a, {n});
  }

  lemma ThresholdOfNewcomer(degraded: bool, height: nat)
    ensures if height >= 100 then Threshold(degraded, height) >= 2 else Threshold(degraded, height) == 0
  {
    if 100 <= height < WINDOW {
      assert height * 3400 >= 20000;
    }
  }

  // ---------- Degraded mode ----------

  /** From genesis, degraded mode is on exactly when the last `limit` blocks were all rejected. */
  lemma {:induction false} DegradedExactly(g: State, start: nat, blocks: seq<Block>)
    requires g == Genesis(g.maxRejections, g.attested) && start >= 1
    requires forall k :: 0 <= k < |blocks| ==> WellFormed(blocks[k])
    ensures var s := Run(g, start, blocks);
            var limit := if g.maxRejections < 1 then 1 else g.maxRejections;
            && s.maxRejections == g.maxRejections
            && 0 <= s.rejections <= |blocks|
            && (forall k :: |blocks| - s.rejections <= k < |blocks| ==> blocks[k].rejected)
            && (s.rejections < |blocks| ==> !blocks[|blocks| - 1 - s.rejections].rejected)
            && (s.degraded <==>
                  |blocks| >= limit && forall k :: |blocks| - limit <= k < |blocks| ==> blocks[k].rejected)
    decreases |blocks|
  {
    hide UpdateAll;
    if blocks == [] {
    } else {
      var n := |blocks| - 1;
      assert forall k :: 0 <= k < n ==> blocks[..n][k] == blocks[k];
      DegradedExactly(g, start, blocks[..n]);
      var s := Run(g, start, blocks[..n]);
      UpdateAllEffect(UpdateMode(s, blocks[n].rejected), blocks[n], blocks[n].validators, start + n, "", 0);
      var s' := Run(g, start, blocks);
      var limit := if g.maxRejections < 1 then 1 else g.maxRejections;
      assert s' == EndBlock(s, blocks[n], start + n).0;
      if blocks[n].rejected {
        if s'.rejections < limit {
          assert |blocks| < limit || !blocks[|blocks| - 1 - s'.rejections].rejected;
        }
      }
    }
  }
}
