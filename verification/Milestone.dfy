/** The milestone module, chain/x/milestone, as functions on its state. */
module MilestoneState {
  import opened Bitwise
  import opened Order
  import opened Prelude

  datatype Phase = Pending | StaleBlocked | Achieved | Expired

  datatype Milestone = Milestone(
    id: Bytes,
    feed: Bytes,
    targetPrice: nat,
    remaining: int,
    phase: Phase,
    pool: string,
    payout: nat)

  /**
   What became of an attempt to pay a milestone out.  A transfer from the escrow account to itself
   succeeds and moves nothing.
   */
  datatype Outcome =
    | Paid(amount: nat)
    | KeptInEscrow(amount: nat)
    | BadAddress
    | NoBank
    | ZeroAmount
    | SendFailed
    | Panicked

  /** A payout attempt, with the escrow balance it found and whether the bank refused the transfer. */
  datatype Attempt = Attempt(id: Bytes, balance: int, refused: bool, outcome: Outcome)

  /**
   The records under the module's five key prefixes, the balance of its escrow account, and the log of
   payout attempts.
   */
  datatype State = State(
    milestones: map<Bytes, Milestone>,
    active: set<Bytes>,
    index: set<Bytes>,
    blocked: set<Bytes>,
    maxActive: int,
    escrow: int,
    attempts: seq<Attempt>)

  /** What a block reads from outside: stale feeds, known prices, and the transfers that fail. */
  datatype Block = Block(stale: set<Bytes>, prices: map<Bytes, nat>, failing: set<Bytes>)

  datatype Environment = Environment(
    account: string -> Option<string>,
    escrowAccount: string,
    hasBank: bool,
    authorities: set<string>)

  predicate Live(m: Milestone) {
    m.phase == Pending || m.phase == StaleBlocked
  }

  // ---------- Indexes ----------

  const COLON: byte := ':' as int

  function FeedPrefix(feed: Bytes): Bytes {
    feed + [COLON]
  }

  function IndexKey(feed: Bytes, id: Bytes): Bytes {
    FeedPrefix(feed) + id
  }

  function IdSet(index: set<Bytes>, feed: Bytes): set<Bytes> {
    set key | key in index && FeedPrefix(feed) <= key :: key[|feed| + 1..]
  }

  /** IterateMilestonesByFeed: a scan of the keys that start with the feed and a colon. */
  function FeedIds(index: set<Bytes>, feed: Bytes): seq<Bytes> {
    SortedKeys(IdSet(index, feed))
  }

  function SetMilestone(s: State, m: Milestone): State {
    var milestones := s.milestones[m.id := m];
    if Live(m) then
      s.(milestones := milestones, active := s.active + {m.feed}, index := s.index + {IndexKey(m.feed, m.id)})
    else
      var index := s.index - {IndexKey(m.feed, m.id)};
      var active := if FeedIds(index, m.feed) == [] then s.active - {m.feed} else s.active;
      s.(milestones := milestones, active := active, index := index)
  }

  // ---------- Payout ----------

  const MAX_INT64 := 0x7fff_ffff_ffff_ffff
  const MIN_INT64 := -0x8000_0000_0000_0000

  /** The decrement of a signed 64-bit counter. */
  function Decrement(x: int): int {
    if x == MIN_INT64 then MAX_INT64 else x - 1
  }

  /** A payout that does not fit a signed 64-bit number makes a negative coin, which panics. */
  function PayoutOutcome(env: Environment, block: Block, escrow: int, m: Milestone): Outcome {
    if env.account(m.pool).None? then BadAddress
    else if !env.hasBank then NoBank
    else if m.payout == 0 then ZeroAmount
    else if m.payout > MAX_INT64 then Panicked
    else if m.id in block.failing || escrow < m.payout then SendFailed
    else if env.account(m.pool) == Some(env.escrowAccount) then KeptInEscrow(m.payout)
    else Paid(m.payout)
  }

  /** triggerVestingPayout */
  function TriggerPayout(env: Environment, block: Block, s: State, m: Milestone): State {
    var outcome := PayoutOutcome(env, block, s.escrow, m);
    s.(attempts := s.attempts + [Attempt(m.id, s.escrow, m.id in block.failing, outcome)],
       escrow := if outcome.Paid? then s.escrow - outcome.amount else s.escrow)
  }

  // ---------- One milestone in one block ----------

  /** The milestone after a block in which its feed is walked. */
  function Advance(m: Milestone, stale: bool, price: Option<nat>): Milestone {
    if stale then
      if m.phase == Pending then m.(phase := StaleBlocked) else m
    else if price.None? then m
    else if m.phase == StaleBlocked then
      if price.value >= m.targetPrice then m.(phase := Achieved) else m.(phase := Pending)
    else if m.phase == Pending then
      if price.value >= m.targetPrice then m.(phase := Achieved)
      else
        var remaining := Decrement(m.remaining);
        if remaining <= 0 then m.(remaining := remaining, phase := Expired) else m.(remaining := remaining)
    else m

  }

  function PriceOf(block: Block, feed: Bytes): Option<nat> {
    if feed in block.prices then Some(block.prices[feed]) else None
  }

  /** The body of the loop over the milestones of a feed, past the checks. */
  function ProcessOne(env: Environment, block: Block, s: State, feed: Bytes, m: Milestone): State {
    var m' := Advance(m, feed in block.stale, PriceOf(block, feed));
    if m' == m then s
    else
      var s' := SetMilestone(s, m');
      if m'.phase == Achieved then TriggerPayout(env, block, s', m') else s'
  }

  // ---------- The walk ----------

  function WalkIds(env: Environment, block: Block, s: State, feed: Bytes, ids: seq<Bytes>, count: int): (State, int)
    decreases |ids|
  {
    if ids == [] || count >= s.maxActive then (s, count)
    else if ids[0] !in s.milestones || !Live(s.milestones[ids[0]]) then
      WalkIds(env, block, s, feed, ids[1..], count)
    else
      WalkIds(env, block, ProcessOne(env, block, s, feed, s.milestones[ids[0]]), feed, ids[1..], count + 1)
  }

  function SetBlocked(s: State, feed: Bytes, stale: bool): State {
    s.(blocked := if stale then s.blocked + {feed} else s.blocked - {feed})
  }

  /** With `skip`, a feed that was blocked and is still stale is passed over. */
  function WalkFeeds(env: Environment, block: Block, s: State, feeds: seq<Bytes>, count: int, skip: bool): State
    decreases |feeds|
  {
    if feeds == [] || count >= s.maxActive then s
    else if skip && feeds[0] in block.stale && feeds[0] in s.blocked then
      WalkFeeds(env, block, s, feeds[1..], count, skip)
    else
      var (s', count') := WalkIds(env, block, s, feeds[0], FeedIds(s.index, feeds[0]), count);
      WalkFeeds(env, block, SetBlocked(s', feeds[0], feeds[0] in block.stale), feeds[1..], count', skip)
  }

  function Walk(env: Environment, block: Block, s: State, skip: bool): State {
    WalkFeeds(env, block, s, SortedKeys(s.active), 0, skip)
  }

  predicate PanickedSince(s: State, s': State) {
    exists i :: |s.attempts| <= i < |s'.attempts| && s'.attempts[i].outcome == Panicked
  }

  /** EndBlocker: a panic stops the node, and nothing of the block is kept. */
  function EndBlock(env: Environment, block: Block, s: State, skip: bool): (State, bool) {
    var s' := Walk(env, block, s, skip);
    if PanickedSince(s, s') then (s, false) else (s', true)
  }

  // ---------- Messages and genesis ----------

  datatype CreateMsg = CreateMsg(
    creator: string, id: Bytes, feed: Bytes, targetPrice: nat, duration: int, pool: string, payout: nat)

  predicate ValidateCreate(env: Environment, msg: CreateMsg) {
    && env.account(msg.creator).Some?
    && msg.id != [] && msg.feed != []
    && msg.targetPrice != 0 && msg.duration > 0
    && msg.pool != "" && env.account(msg.pool).Some?
    && msg.payout != 0
  }

  /** CreateMilestone, by the governance or the module account. */
  function Create(env: Environment, s: State, msg: CreateMsg): (State, bool) {
    if !ValidateCreate(env, msg) || msg.creator !in env.authorities || msg.id in s.milestones then (s, false)
    else
      (SetMilestone(s, Milestone(msg.id, msg.feed, msg.targetPrice, msg.duration, Pending, msg.pool, msg.payout)), true)
  }

  /** The governance change of a target price. */
  function UpdateTarget(s: State, id: Bytes, target: nat): (State, bool) {
    if id in s.milestones then (SetMilestone(s, s.milestones[id].(targetPrice := target)), true) else (s, false)
  }

  function Empty(maxActive: int): State {
    State(map[], {}, {}, {}, maxActive, 0, [])
  }

  function SetAll(s: State, ms: seq<Milestone>): State
    decreases |ms|
  {
    if ms == [] then s else SetAll(SetMilestone(s, ms[0]), ms[1..])
  }

  /** InitGenesis */
  function InitGenesis(maxActive: int, ms: seq<Milestone>): State {
    SetAll(Empty(maxActive), ms)
  }

  /** ExportGenesis: all milestones in key order; flags, balance and log are not exported. */
  function Export(s: State): seq<Milestone>
    requires forall id :: id in s.milestones ==> s.milestones[id].id == id
  {
    var ids := SortedKeys(s.milestones.Keys);
    seq(|ids|, i requires 0 <= i < |ids| => assert ids[i] in ids; s.milestones[ids[i]])
  }
}
