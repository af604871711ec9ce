/** The milestone life cycle, the skip of blocked feeds, and what every run keeps. */
module MilestoneRuns {
  import opened Order
  import opened MilestoneState
  import opened MilestoneIndexes
  import opened MilestoneWalk

  // ---------- Life cycle of one milestone ----------

  predicate Finished(m: Milestone) {
    m.phase == Achieved || m.phase == Expired
  }

  /** The feed is fresh and its price is below the target. */
  predicate BelowTarget(block: Block, m: Milestone) {
    m.feed !in block.stale && m.feed in block.prices && block.prices[m.feed] < m.targetPrice
  }

  /** The block counts the milestone down. */
  predicate CountsDown(block: Block, m: Milestone) {
    m.phase == Pending && BelowTarget(block, m)
  }

  /**
   One step of the life cycle: finished milestones stay as they are; a milestone is achieved only with
   a fresh feed at or above its target, and expires only from a fresh price below it; the countdown
   moves exactly then, and decreases, by one, if and only if it is not the lowest 64-bit number, where
   it wraps around; a pending milestone is blocked exactly by a stale feed, and a blocked one pends again
   exactly at a fresh price below target.
   */
  lemma LifeCycleStep(block: Block, m: Milestone)
    ensures var m' := Next(block, m);
            var priced := m.feed !in block.stale && m.feed in block.prices;
            && m'.(phase := m.phase, remaining := m.remaining) == m
            && (Finished(m) ==> m' == m)
            && (m'.phase == Achieved && Live(m) <==> Live(m) && priced && block.prices[m.feed] >= m.targetPrice)
            && (m'.remaining != m.remaining <==> CountsDown(block, m))
            && (m'.remaining < m.remaining <==> CountsDown(block, m) && m.remaining != MIN_INT64)
            && (m'.remaining < m.remaining ==> m'.remaining == m.remaining - 1)
            && (m'.remaining > m.remaining ==> m'.remaining == MAX_INT64)
            && (m'.phase == Expired && Live(m) <==> CountsDown(block, m) && m'.remaining <= 0)
            && (m'.phase == StaleBlocked && m.phase == Pending <==> m.phase == Pending && m.feed in block.stale)
            && (m'.phase == Pending && m.phase == StaleBlocked <==> m.phase == StaleBlocked && BelowTarget(block, m))
  {
  }

  // ---------- Payout ----------

  /** A bank transfer: first the debit, then the credit. */
  function Transfer(balance: string -> int, from: string, to: string, amount: int): string -> int {
    var debited := (a: string) => if a == from then balance(a) - amount else balance(a);
    a => if a == to then debited(a) + amount else debited(a)
  }

  /** The escrow balance after a payout is that of its bank transfer, also when the pool is the escrow account. */
  lemma PayoutIsTransfer(env: Environment, block: Block, s: State, m: Milestone, balance: string -> int)
    requires balance(env.escrowAccount) == s.escrow
    ensures var outcome := PayoutOutcome(env, block, s.escrow, m);
            TriggerPayout(env, block, s, m).escrow ==
            if outcome.Paid? || outcome.KeptInEscrow? then
              Transfer(balance, env.escrowAccount, env.account(m.pool).value, m.payout)(env.escrowAccount)
            else balance(env.escrowAccount)
  {
  }

  // ---------- Skipping blocked feeds ----------

  /** Whatever waits for a feed that is blocked and still stale is marked so already. */
  ghost predicate SkipSafe(block: Block, s: State) {
    forall id :: id in s.milestones && Live(s.milestones[id]) &&
                 s.milestones[id].feed in block.stale && s.milestones[id].feed in s.blocked ==>
                   s.milestones[id].phase == StaleBlocked
  }

  /** Within the budget, the count a walk starts from does not matter. */
  lemma {:induction false} CountIrrelevant(
      env: Environment, block: Block, s: State, feed: Bytes, ids: seq<Bytes>, c: int, d: int)
    requires c + |ids| <= s.maxActive && d + |ids| <= s.maxActive
    ensures WalkIds(env, block, s, feed, ids, c).0 == WalkIds(env, block, s, feed, ids, d).0
    decreases |ids|
  {
    hide ProcessOne, Live;
    if ids == [] {
    } else {
      if ids[0] !in s.milestones || !Live(s.milestones[ids[0]]) {
        CountIrrelevant(env, block, s, feed, ids[1..], c, d);
      } else {
        var s1 := ProcessOne(env, block, s, feed, s.milestones[ids[0]]);
        ProcessKeepsBudget(env, block, s, feed, s.milestones[ids[0]]);
        CountIrrelevant(env, block, s1, feed, ids[1..], c + 1, d + 1);
      }
    }
  }

  lemma ProcessKeepsBudget(env: Environment, block: Block, s: State, feed: Bytes, m: Milestone)
    ensures ProcessOne(env, block, s, feed, m).maxActive == s.maxActive
  {
    hide Advance, FeedIds, IndexKey, PayoutOutcome;
  }

  /** Walking milestones that a stale feed has blocked already does nothing. */
  lemma {:induction false} BlockedWalkIdle(
      env: Environment, block: Block, s: State, feed: Bytes, ids: seq<Bytes>, count: int)
    requires feed in block.stale
    requires forall id :: id in ids && id in s.milestones && Live(s.milestones[id]) ==>
               s.milestones[id].phase == StaleBlocked
    ensures WalkIds(env, block, s, feed, ids, count).0 == s
    ensures WalkIds(env, block, s, feed, ids, count).1 <= count + |ids|
    decreases |ids|
  {
    hide SetMilestone, TriggerPayout;
    if ids == [] {
    } else {
      assert ids[0] in ids && forall id :: id in ids[1..] ==> id in ids;
      BlockedWalkIdle(env, block, s, feed, ids[1..], count);
      BlockedWalkIdle(env, block, s, feed, ids[1..], count + 1);
    }
  }

  /** SkipSafe, for the milestones of the given feeds. */
  ghost predicate SkipSafeFor(block: Block, s: State, feeds: seq<Bytes>) {
    forall id :: id in LiveIn(s, feeds) &&
                 s.milestones[id].feed in block.stale && s.milestones[id].feed in s.blocked ==>
                   s.milestones[id].phase == StaleBlocked
  }

  lemma {:induction false} SkipAgrees(
      env: Environment, block: Block, s: State, feeds: seq<Bytes>, c: int, d: int)
    requires Invariant(s) && Distinct(feeds) && c <= d
    requires forall feed :: feed in feeds ==> Fits(s, feed)
    requires Affordable(s, feeds, d)
    requires SkipSafeFor(block, s, feeds)
    ensures WalkFeeds(env, block, s, feeds, c, true) == WalkFeeds(env, block, s, feeds, d, false)
    decreases |feeds|
  {
    hide Invariant, Fits, WalkFeeds, Affordable, SkipSafeFor;
    if feeds == [] {
      NoFeeds(env, block, s, c, d);
    } else {
      var feed, rest := feeds[0], feeds[1..];
      assert feeds == [feed] + rest && feed !in rest;
      assert forall i, j :: 0 <= i < j < |rest| ==> rest[i] == feeds[i + 1] && rest[j] == feeds[j + 1];
      if feed in block.stale && feed in s.blocked {
        var d2 := SkippedHead(env, block, s, feed, rest, c, d);
        SkipAgrees(env, block, s, rest, c, d2);
      } else {
        var s2, c2, d2 := WalkedHead(env, block, s, feed, rest, c, d);
        SkipAgrees(env, block, s2, rest, c2, d2);
      }
    }
  }

  lemma NoFeeds(env: Environment, block: Block, s: State, c: int, d: int)
    ensures WalkFeeds(env, block, s, [], c, true) == WalkFeeds(env, block, s, [], d, false)
  {
  }

  /** The first feed is skipped; walking it changes nothing. */
  lemma SkippedHead(
      env: Environment, block: Block, s: State, feed: Bytes, rest: seq<Bytes>, c: int, d: int) returns (d2: int)
    requires Invariant(s) && Fits(s, feed) && feed !in rest && c <= d
    requires feed in block.stale && feed in s.blocked
    requires Affordable(s, [feed] + rest, d) && SkipSafeFor(block, s, [feed] + rest)
    ensures c <= d2 && Affordable(s, rest, d2) && SkipSafeFor(block, s, rest)
    ensures WalkFeeds(env, block, s, [feed] + rest, c, true) == WalkFeeds(env, block, s, rest, c, true)
    ensures WalkFeeds(env, block, s, [feed] + rest, d, false) == WalkFeeds(env, block, s, rest, d2, false)
  {
    hide Invariant, Live, FeedIds, Fits, WalkIds, Affordable, SetBlocked, Advanced, SkipSafeFor;
    var ids := FeedIds(s.index, feed);
    d2 := WalkIds(env, block, s, feed, ids, d).1;
    InvariantGivesFeedIds(s, feed);
    DistinctSize(ids);
    AffordableHead(s, feed, rest, d);
    WaitingAreBlocked(block, s, feed, rest, ids);
    BlockedWalkIdle(env, block, s, feed, ids, d);
    StillSafe(block, s, s, feed, rest);
    BlockedFlagIdle(s, feed);
    AffordableTail(s, s, feed, rest, d, d2);
    var done := WalkIdsEffect(env, block, s, feed, ids, d);
    assert ([feed] + rest)[0] == feed && ([feed] + rest)[1..] == rest;
  }

  /** Both walks advance the first feed alike. */
  lemma WalkedHead(env: Environment, block: Block, s: State, feed: Bytes, rest: seq<Bytes>, c: int, d: int)
    returns (s2: State, c2: int, d2: int)
    requires Invariant(s) && Fits(s, feed) && feed !in rest && c <= d
    requires !(feed in block.stale && feed in s.blocked)
    requires Affordable(s, [feed] + rest, d) && SkipSafeFor(block, s, [feed] + rest)
    ensures Invariant(s2) && c2 <= d2 && Affordable(s2, rest, d2) && SkipSafeFor(block, s2, rest)
    ensures forall g :: Fits(s2, g) <==> Fits(s, g)
    ensures WalkFeeds(env, block, s, [feed] + rest, c, true) == WalkFeeds(env, block, s2, rest, c2, true)
    ensures WalkFeeds(env, block, s, [feed] + rest, d, false) == WalkFeeds(env, block, s2, rest, d2, false)
  {
    hide Invariant, Live, FeedIds, Fits, WalkIds, Affordable, SetBlocked, Advanced, SkipSafeFor;
    var ids := FeedIds(s.index, feed);
    InvariantGivesFeedIds(s, feed);
    DistinctSize(ids);
    AffordableHead(s, feed, rest, d);
    CountIrrelevant(env, block, s, feed, ids, c, d);
    s2 := SetBlocked(WalkIds(env, block, s, feed, ids, d).0, feed, feed in block.stale);
    var headC := WalkOneFeed(env, block, s, feed, c, rest);
    var headD := WalkOneFeed(env, block, s, feed, d, rest);
    c2, d2 := c + |headC|, d + |headD|;
    AffordableTail(s, s2, feed, rest, d, d2);
    StillSafe(block, s, s2, feed, rest);
    assert ([feed] + rest)[0] == feed && ([feed] + rest)[1..] == rest;
  }

  lemma WaitingAreBlocked(block: Block, s: State, feed: Bytes, rest: seq<Bytes>, ids: seq<Bytes>)
    requires SkipSafeFor(block, s, [feed] + rest) && feed in block.stale && feed in s.blocked
    requires forall id :: id in ids && id in s.milestones ==> s.milestones[id].feed == feed
    ensures forall id :: id in ids && id in s.milestones && Live(s.milestones[id]) ==>
              s.milestones[id].phase == StaleBlocked
  {
    hide Live;
  }

  lemma AffordableHead(s: State, feed: Bytes, rest: seq<Bytes>, count: int)
    requires feed !in rest && Affordable(s, [feed] + rest, count)
    ensures count + |LiveIn(s, [feed])| <= s.maxActive && count < s.maxActive
  {
    hide Live, HasLive;
    LiveInSplits(s, feed, rest);
    SomeLive(s, feed);
  }

  lemma AffordableTail(s: State, s2: State, feed: Bytes, rest: seq<Bytes>, count: int, count2: int)
    requires feed !in rest && Affordable(s, [feed] + rest, count)
    requires s2.maxActive == s.maxActive && s2.milestones.Keys == s.milestones.Keys
    requires forall id :: id in s.milestones && s.milestones[id].feed != feed ==> s2.milestones[id] == s.milestones[id]
    requires forall id :: id in s.milestones ==> s2.milestones[id].feed == s.milestones[id].feed
    requires count2 <= count + |LiveIn(s, [feed])|
    ensures Affordable(s2, rest, count2)
  {
    hide Live, HasLive, LiveIn;
    AffordableStep(s, s2, feed, rest, count);
  }

  lemma BlockedFlagIdle(s: State, feed: Bytes)
    requires feed in s.blocked
    ensures SetBlocked(s, feed, true) == s
  {
    assert s.blocked + {feed} == s.blocked;
  }

  lemma StillSafe(block: Block, s: State, s2: State, feed: Bytes, rest: seq<Bytes>)
    requires feed !in rest && s2.milestones.Keys == s.milestones.Keys
    requires forall id :: id in s.milestones && s.milestones[id].feed != feed ==> s2.milestones[id] == s.milestones[id]
    requires forall id :: id in s.milestones ==> s2.milestones[id].feed == s.milestones[id].feed
    requires forall g :: g != feed ==> (g in s2.blocked <==> g in s.blocked)
    requires SkipSafeFor(block, s, [feed] + rest)
    ensures SkipSafeFor(block, s2, rest)
  {
    hide Live;
  }

  /**
   With the budget covering all live milestones, skipping blocked feeds yields the same block - the same
   milestones, indexes, flags, payouts and escrow - as walking every feed, if and only if everything
   that waits for a skipped feed is marked stale-blocked.
   */
  lemma SkipIsExact(env: Environment, block: Block, s: State)
    requires Invariant(s) && |LiveIds(s)| <= s.maxActive
    ensures Walk(env, block, s, true) == Walk(env, block, s, false) <==> SkipSafe(block, s)
  {
    hide Invariant, Live, Fits, WalkFeeds, LiveIn, Advanced, Next, Walk, Skipped;
    if SkipSafe(block, s) {
      var feeds := SortedKeys(s.active);
      ActiveFeeds(s, feeds);
      AllAffordable(s, feeds);
      SafeForAll(block, s, feeds);
      SkipAgrees(env, block, s, feeds, 0, 0);
      WalkUnfolds(env, block, s);
    } else {
      var id :| id in s.milestones && Live(s.milestones[id]) && s.milestones[id].feed in block.stale &&
                  s.milestones[id].feed in s.blocked
                && s.milestones[id].phase != StaleBlocked;
      var skipped := WalkEffect(env, block, s, true);
      var walked := WalkEffect(env, block, s, false);
      MissedMilestone(block, s, Walk(env, block, s, true), Walk(env, block, s, false), skipped, walked, id);
    }
  }

  lemma SafeForAll(block: Block, s: State, feeds: seq<Bytes>)
    requires SkipSafe(block, s)
    ensures SkipSafeFor(block, s, feeds)
  {
    hide Live;
  }

  lemma WalkUnfolds(env: Environment, block: Block, s: State)
    ensures forall skip :: Walk(env, block, s, skip) == WalkFeeds(env, block, s, SortedKeys(s.active), 0, skip)
  {
    hide WalkFeeds;
  }

  lemma AllAffordable(s: State, feeds: seq<Bytes>)
    requires |LiveIds(s)| <= s.maxActive
    requires forall feed :: feed in feeds ==> HasLive(s, feed)
    requires forall id :: id in LiveIds(s) ==> s.milestones[id].feed in feeds
    ensures Affordable(s, feeds, 0)
  {
    hide Live, HasLive;
    assert LiveIn(s, feeds) == LiveIds(s);
  }

  lemma MissedMilestone(block: Block, s: State, t: State, u: State, skipped: set<Bytes>, walked: set<Bytes>, id: Bytes)
    requires id in s.milestones && Live(s.milestones[id]) && s.milestones[id].phase != StaleBlocked
    requires s.milestones[id].feed in block.stale && s.milestones[id].feed in s.blocked
    requires Advanced(block, s, t, skipped) && Advanced(block, s, u, walked)
    requires forall i :: i in skipped ==> i in s.milestones && !Skipped(block, s, s.milestones[i].feed, true)
    requires walked == (set i | i in LiveIds(s) && !Skipped(block, s, s.milestones[i].feed, false))
    ensures t != u
  {
    hide Invariant, Funds, NewIds;
    assert id !in skipped && id in walked;
    assert t.milestones[id] == s.milestones[id];
    assert u.milestones[id].phase == StaleBlocked;
  }

  // ---------- Runs ----------

  datatype Op =
    | CreateOp(msg: CreateMsg)
    | BlockOp(block: Block)
    | TargetOp(id: Bytes, target: nat)
    | FundOp(amount: nat)

  function Apply(env: Environment, s: State, op: Op, skip: bool): State {
    match op
    case CreateOp(msg) => Create(env, s, msg).0
    case BlockOp(block) => EndBlock(env, block, s, skip).0
    case TargetOp(id, target) => UpdateTarget(s, id, target).0
    case FundOp(amount) => s.(escrow := s.escrow + amount)
  }

  function Run(env: Environment, s: State, ops: seq<Op>, skip: bool): State
    decreases |ops|
  {
    if ops == [] then s else Run(env, Apply(env, s, ops[0], skip), ops[1..], skip)
  }

  /** The feeds are pairwise apart. */
  ghost predicate PrefixFree(feeds: iset<Bytes>) {
    forall f, g :: f in feeds && g in feeds ==> Apart(f, g)
  }

  ghost predicate FeedsIn(s: State, feeds: iset<Bytes>) {
    forall id :: id in s.milestones ==> s.milestones[id].feed in feeds
  }

  /** Milestones are created on these feeds only. */
  ghost predicate CreatesOn(ops: seq<Op>, feeds: iset<Bytes>) {
    forall i :: 0 <= i < |ops| && ops[i].CreateOp? ==> ops[i].msg.feed in feeds
  }

  function Funded(ops: seq<Op>): nat
    decreases |ops|
  {
    if ops == [] then 0 else (if ops[0].FundOp? then ops[0].amount else 0) + Funded(ops[1..])
  }

  lemma EndBlockEffect(env: Environment, block: Block, s: State, skip: bool) returns (done: set<Bytes>)
    requires Invariant(s)
    ensures var (s', ok) := EndBlock(env, block, s, skip);
            if ok then s' == Walk(env, block, s, skip) && Advanced(block, s, s', done) else s' == s
    ensures EndBlock(env, block, s, skip).1 && |LiveIds(s)| <= s.maxActive && !skip ==> done == LiveIds(s)
  {
    hide Invariant, Live, Advanced, Walk;
    done := WalkEffect(env, block, s, skip);
    if |LiveIds(s)| <= s.maxActive && !skip {
      assert done == LiveIds(s);
    }
  }

  /** A milestone that is only moved on within its identity and phase keeps the log exact. */
  lemma RewriteKeepsInvariant(s: State, m: Milestone)
    requires Invariant(s) && Fits(s, m.feed)
    requires m.id in s.milestones ==> s.milestones[m.id].feed == m.feed && s.milestones[m.id].phase == m.phase
    ensures Invariant(SetMilestone(s, m))
    ensures SetMilestone(s, m).milestones == s.milestones[m.id := m]
    ensures var s' := SetMilestone(s, m);
            s'.attempts == s.attempts && s'.escrow == s.escrow && s'.blocked == s.blocked && s'.maxActive == s.maxActive
  {
    hide FeedIds, IndexKey, Apart, Indexed, HasLive;
    SetMilestoneKeepsIndexes(s, m);
    WriteKeepsApart(s, m, SetMilestone(s, m));
  }

  lemma BlockKeeps(env: Environment, block: Block, s: State, skip: bool)
    requires Invariant(s)
    ensures var s' := EndBlock(env, block, s, skip).0;
            && Invariant(s')
            && s.attempts <= s'.attempts
            && Funds(s') == Funds(s)
            && (s.escrow >= 0 ==> s'.escrow >= 0)
            && s'.milestones.Keys == s.milestones.Keys
            && (forall id :: id in s.milestones ==> s'.milestones[id].feed == s.milestones[id].feed)
            && (forall id :: id in s.milestones && Finished(s.milestones[id]) ==> s'.milestones[id] == s.milestones[id])
  {
    hide Invariant, Next, EndBlock, Funds, NewIds;
    var done := EndBlockEffect(env, block, s, skip);
    forall id | id in s.milestones
      ensures Next(block, s.milestones[id]).feed == s.milestones[id].feed
    {
      AdvanceKeepsIdentity(block, s.milestones[id]);
    }
    forall id | id in s.milestones && Finished(s.milestones[id])
      ensures Next(block, s.milestones[id]) == s.milestones[id]
    {
      FinishedStays(block, s.milestones[id]);
    }
  }

  lemma FinishedStays(block: Block, m: Milestone)
    requires Finished(m)
    ensures Next(block, m) == m
  {
  }

  /**
   One operation keeps the indexes and the log exact, keeps every finished milestone finished with the
   same countdown, only extends the log, and moves escrow money only by funding and logged payouts.
   */
  lemma ApplyKeeps(env: Environment, s: State, op: Op, skip: bool)
    requires Invariant(s) && (op.CreateOp? ==> Fits(s, op.msg.feed))
    ensures var s' := Apply(env, s, op, skip);
            && Invariant(s')
            && s.attempts <= s'.attempts
            && Funds(s') == Funds(s) + Funded([op])
            && (s.escrow >= 0 ==> s'.escrow >= 0)
            && (forall id :: id in s.milestones ==>
                  id in s'.milestones && s'.milestones[id].feed == s.milestones[id].feed)
            && (forall id :: id in s'.milestones && id !in s.milestones ==>
                  op.CreateOp? && s'.milestones[id].feed == op.msg.feed)
            && (forall id :: id in s.milestones && Finished(s.milestones[id]) ==>
                  s'.milestones[id].phase == s.milestones[id].phase &&
                    s'.milestones[id].remaining == s.milestones[id].remaining)
  {
    hide Invariant, Advance, SetMilestone, EndBlock, Fits, ValidateCreate;
    assert Funded([op]) == if op.FundOp? then op.amount else 0 by {
      assert [op][1..] == [];
    }
    match op {
      case CreateOp(msg) =>
        if Create(env, s, msg).1 {
          var m := Milestone(msg.id, msg.feed, msg.targetPrice, msg.duration, Pending, msg.pool, msg.payout);
          RewriteKeepsInvariant(s, m);
        }
      case BlockOp(block) => BlockKeeps(env, block, s, skip);
      case TargetOp(id, target) =>
        if id in s.milestones {
          KeyedById(s, id);
          RewriteKeepsInvariant(s, s.milestones[id].(targetPrice := target));
        }
      case FundOp(amount) =>
        FundingKeepsInvariant(s, amount);
    }
  }

  lemma FundingKeepsInvariant(s: State, amount: nat)
    requires Invariant(s)
    ensures Invariant(s.(escrow := s.escrow + amount))
  {
    IgnoresPayout(s, s.(escrow := s.escrow + amount));
  }

  /**
   Over every run: the indexes stay exact; achieved and expired are final; each milestone has at most
   one payout attempt, and an attempted one is achieved; and what left the escrow is the sum of the
   successful payouts to other accounts.
   */
  lemma {:induction false} RunKeeps(env: Environment, s: State, ops: seq<Op>, skip: bool, feeds: iset<Bytes>)
    requires Invariant(s) && PrefixFree(feeds) && FeedsIn(s, feeds) && CreatesOn(ops, feeds)
    ensures var s' := Run(env, s, ops, skip);
            && IndexesExact(s') && AttemptsExact(s')
            && s.attempts <= s'.attempts
            && s'.escrow + PaidTotal(s'.attempts) == s.escrow + PaidTotal(s.attempts) + Funded(ops)
            && (s.escrow >= 0 ==> s'.escrow >= 0)
            && (forall id :: id in s.milestones ==> id in s'.milestones)
            && (forall id :: id in s.milestones && Finished(s.milestones[id]) ==>
                  s'.milestones[id].phase == s.milestones[id].phase &&
                    s'.milestones[id].remaining == s.milestones[id].remaining)
    decreases |ops|
  {
    hide IndexesExact, AttemptsExact, FeedsApart, Apart, Apply, PaidTotal;
    if ops == [] {
    } else {
      var s1 := Apply(env, s, ops[0], skip);
      ApplyKeeps(env, s, ops[0], skip);
      assert CreatesOn(ops[1..], feeds) by {
        assert forall i :: 0 <= i < |ops[1..]| ==> ops[1..][i] == ops[i + 1];
      }
      assert FeedsIn(s1, feeds);
      assert Funded([ops[0]]) == (if ops[0].FundOp? then ops[0].amount else 0) by {
        assert [ops[0]][1..] == [];
      }
      RunKeeps(env, s1, ops[1..], skip, feeds);
    }
  }

  // ---------- Runs with and without skipping ----------

  /** Everything that waits for a blocked feed is marked so. */
  ghost predicate BlockedMarked(s: State) {
    forall id :: id in s.milestones && Live(s.milestones[id]) && s.milestones[id].feed in s.blocked ==>
                   s.milestones[id].phase == StaleBlocked
  }

  /** Along the run the budget suffices, and every created milestone's feed fits the others and is not blocked. */
  ghost predicate Calm(env: Environment, s: State, ops: seq<Op>)
    decreases |ops|
  {
    ops == [] ||
    ((match ops[0]
      case CreateOp(msg) => Fits(s, msg.feed) && msg.feed !in s.blocked
      case BlockOp(_) => |LiveIds(s)| <= s.maxActive
      case _ => true)
     && Calm(env, Apply(env, s, ops[0], true), ops[1..]))
  }

  lemma BlockKeepsMarked(env: Environment, block: Block, s: State)
    requires Invariant(s) && BlockedMarked(s) && |LiveIds(s)| <= s.maxActive
    ensures BlockedMarked(Walk(env, block, s, true))
  {
    hide Invariant, Advance, Walk;
    var done := WalkEffect(env, block, s, true);
    var s' := Walk(env, block, s, true);
    forall id | id in s'.milestones && Live(s'.milestones[id]) && s'.milestones[id].feed in s'.blocked
      ensures s'.milestones[id].phase == StaleBlocked
    {
      LiveBefore(block, s, s', done, id);
      ActiveIfLive(s, id);
      NextWhenStale(block, s.milestones[id]);
    }
  }

  lemma LiveBefore(block: Block, s: State, s': State, done: set<Bytes>, id: Bytes)
    requires Advanced(block, s, s', done) && id in s'.milestones && Live(s'.milestones[id])
    ensures id in s.milestones && Live(s.milestones[id]) && s'.milestones[id].feed == s.milestones[id].feed
  {
    hide Invariant, Funds, NewIds;
  }

  lemma ActiveIfLive(s: State, id: Bytes)
    requires Invariant(s) && id in s.milestones && Live(s.milestones[id])
    ensures s.milestones[id].feed in s.active
  {
    hide Live, Indexed, Fits;
    assert HasLive(s, s.milestones[id].feed);
  }

  lemma NextWhenStale(block: Block, m: Milestone)
    ensures m.feed in block.stale && Live(m) ==> Next(block, m).phase == StaleBlocked
  {
  }

  lemma MarkedIsSafe(block: Block, s: State)
    requires BlockedMarked(s)
    ensures SkipSafe(block, s)
  {
    hide Live;
  }

  lemma StepKeepsMarked(env: Environment, s: State, op: Op)
    requires Invariant(s) && BlockedMarked(s)
    requires op.CreateOp? ==> Fits(s, op.msg.feed) && op.msg.feed !in s.blocked
    requires op.BlockOp? ==> |LiveIds(s)| <= s.maxActive
    ensures BlockedMarked(Apply(env, s, op, true))
    ensures Apply(env, s, op, true) == Apply(env, s, op, false)
  {
    hide Invariant, SetMilestone, Fits, ValidateCreate, Walk, PanickedSince;
    match op {
      case CreateOp(msg) =>
        if Create(env, s, msg).1 {
          var m := Milestone(msg.id, msg.feed, msg.targetPrice, msg.duration, Pending, msg.pool, msg.payout);
          RewriteKeepsInvariant(s, m);
        }
      case BlockOp(block) =>
        MarkedIsSafe(block, s);
        SkipIsExact(env, block, s);
        BlockKeepsMarked(env, block, s);
      case TargetOp(id, target) =>
        if id in s.milestones {
          KeyedById(s, id);
          RewriteKeepsInvariant(s, s.milestones[id].(targetPrice := target));
        }
      case FundOp(amount) =>
    }
  }

  /** Over calm runs the skip is invisible. */
  lemma {:induction false} SkipInvisibleOverRuns(env: Environment, s: State, ops: seq<Op>)
    requires Invariant(s) && BlockedMarked(s) && Calm(env, s, ops)
    ensures Run(env, s, ops, true) == Run(env, s, ops, false)
    decreases |ops|
  {
    hide Invariant, BlockedMarked, Apply;
    if ops == [] {
    } else {
      StepKeepsMarked(env, s, ops[0]);
      ApplyKeeps(env, s, ops[0], true);
      SkipInvisibleOverRuns(env, Apply(env, s, ops[0], true), ops[1..]);
    }
  }

  // ---------- The countdown ----------

  /** Blocks that are kept, with the budget covering all live milestones. */
  ghost predicate Kept(env: Environment, s: State, blocks: seq<Block>, skip: bool)
    decreases |blocks|
  {
    blocks == [] ||
    (EndBlock(env, blocks[0], s, skip).1 && |LiveIds(s)| <= s.maxActive &&
     Kept(env, EndBlock(env, blocks[0], s, skip).0, blocks[1..], skip))
  }

  function RunBlocks(env: Environment, s: State, blocks: seq<Block>, skip: bool): State
    decreases |blocks|
  {
    if blocks == [] then s else RunBlocks(env, EndBlock(env, blocks[0], s, skip).0, blocks[1..], skip)
  }

  /**
   Pending through blocks with a fresh price below target, a milestone expires in exactly the last
   block of its countdown.
   */
  lemma {:induction false} ExpiresOnTime(
      env: Environment, s: State, blocks: seq<Block>, skip: bool, id: Bytes)
    requires Invariant(s) && Kept(env, s, blocks, skip)
    requires id in s.milestones && s.milestones[id].phase == Pending && |blocks| <= s.milestones[id].remaining
    requires forall i :: 0 <= i < |blocks| ==> BelowTarget(blocks[i], s.milestones[id])
    ensures var s' := RunBlocks(env, s, blocks, skip);
            var m := s.milestones[id];
            && id in s'.milestones
            && s'.milestones[id] ==
                 (if |blocks| == m.remaining && blocks != [] then m.(phase := Expired, remaining := 0)
                                     else m.(remaining := m.remaining - |blocks|))
    decreases |blocks|
  {
    hide Invariant, Advance, EndBlock;
    if blocks == [] {
    } else {
      var s1 := EndBlock(env, blocks[0], s, skip).0;
      KeptBlockBelowTarget(env, blocks[0], s, skip, id);
      assert forall i :: 0 <= i < |blocks[1..]| ==> blocks[1..][i] == blocks[i + 1];
      if |blocks| > 1 {
        ExpiresOnTime(env, s1, blocks[1..], skip, id);
      }
    }
  }

  /** The same from a blocked start: one such block makes it pending, and then the countdown runs. */
  lemma ExpiresAfterBlocked(env: Environment, s: State, blocks: seq<Block>, skip: bool, id: Bytes)
    requires Invariant(s) && Kept(env, s, blocks, skip) && blocks != []
    requires id in s.milestones && s.milestones[id].phase == StaleBlocked
    requires |blocks| <= s.milestones[id].remaining + 1
    requires forall i :: 0 <= i < |blocks| ==> BelowTarget(blocks[i], s.milestones[id])
    ensures var s' := RunBlocks(env, s, blocks, skip);
            var m := s.milestones[id];
            && id in s'.milestones
            && s'.milestones[id] ==
                 (if |blocks| == m.remaining + 1 && |blocks| > 1 then m.(phase := Expired, remaining := 0)
                                     else m.(phase := Pending, remaining := m.remaining - (|blocks| - 1)))
  {
    hide Invariant, Advance, EndBlock;
    var m := s.milestones[id];
    var s1 := EndBlock(env, blocks[0], s, skip).0;
    KeptBlockUnblocks(env, blocks[0], s, skip, id);
    assert forall i :: 0 <= i < |blocks[1..]| ==> blocks[1..][i] == blocks[i + 1];
    ExpiresOnTime(env, s1, blocks[1..], skip, id);
  }

  lemma KeptBlockUnblocks(env: Environment, block: Block, s: State, skip: bool, id: Bytes)
    requires Invariant(s) && EndBlock(env, block, s, skip).1 && |LiveIds(s)| <= s.maxActive
    requires id in s.milestones && s.milestones[id].phase == StaleBlocked && BelowTarget(block, s.milestones[id])
    ensures var s' := EndBlock(env, block, s, skip).0;
            && Invariant(s') && id in s'.milestones
            && s'.milestones[id] == s.milestones[id].(phase := Pending)
  {
    hide Invariant, Next, Walk, Funds, NewIds, PanickedSince;
    var done := WalkEffect(env, block, s, skip);
    assert id in done;
    NextUnblocks(block, s.milestones[id]);
  }

  lemma NextUnblocks(block: Block, m: Milestone)
    requires m.phase == StaleBlocked && BelowTarget(block, m)
    ensures Next(block, m) == m.(phase := Pending)
  {
  }

  /** What a milestone becomes over some blocks, seeing only its own feed. */
  function History(blocks: seq<Block>, m: Milestone): Milestone
    decreases |blocks|
  {
    if blocks == [] then m else History(blocks[1..], Next(blocks[0], m))
  }

  /**
   Over any kept blocks every milestone lives by its own feed alone: with the skip, as long as everything
   that waits for a blocked feed is marked so at the start.
   */
  lemma {:induction false} LivesByOwnFeed(env: Environment, s: State, blocks: seq<Block>, skip: bool, id: Bytes)
    requires Invariant(s) && Kept(env, s, blocks, skip) && id in s.milestones
    requires skip ==> BlockedMarked(s)
    ensures var s' := RunBlocks(env, s, blocks, skip);
            id in s'.milestones && s'.milestones[id] == History(blocks, s.milestones[id])
    decreases |blocks|
  {
    hide Invariant, Next, EndBlock, BlockedMarked;
    if blocks == [] {
    } else {
      OneBlockAlone(env, s, blocks[0], skip, id);
      LivesByOwnFeed(env, EndBlock(env, blocks[0], s, skip).0, blocks[1..], skip, id);
    }
  }

  lemma OneBlockAlone(env: Environment, s: State, block: Block, skip: bool, id: Bytes)
    requires Invariant(s) && EndBlock(env, block, s, skip).1 && |LiveIds(s)| <= s.maxActive && id in s.milestones
    requires skip ==> BlockedMarked(s)
    ensures var s' := EndBlock(env, block, s, skip).0;
            && Invariant(s') && id in s'.milestones && s'.milestones[id] == Next(block, s.milestones[id])
            && (skip ==> BlockedMarked(s'))
  {
    hide Invariant, Next, Walk, Funds, NewIds, PanickedSince, BlockedMarked;
    var m := s.milestones[id];
    var done := WalkEffect(env, block, s, skip);
    if skip {
      BlockKeepsMarked(env, block, s);
    }
    if !Live(m) {
      FinishedStays(block, m);
    } else if Skipped(block, s, m.feed, skip) {
      MarkedOne(s, id);
      BlockedStays(block, m);
    } else {
      assert id in done;
    }
  }

  lemma MarkedOne(s: State, id: Bytes)
    requires BlockedMarked(s) && id in s.milestones && Live(s.milestones[id]) && s.milestones[id].feed in s.blocked
    ensures s.milestones[id].phase == StaleBlocked
  {
  }

  lemma BlockedStays(block: Block, m: Milestone)
    requires m.phase == StaleBlocked && m.feed in block.stale
    ensures Next(block, m) == m
  {
  }

  /** A pending milestone one block closer to its deadline. */
  function CountedDown(m: Milestone): Milestone {
    if m.remaining == 1 then m.(phase := Expired, remaining := 0) else m.(remaining := m.remaining - 1)
  }

  lemma KeptBlockBelowTarget(env: Environment, block: Block, s: State, skip: bool, id: Bytes)
    requires Invariant(s) && EndBlock(env, block, s, skip).1 && |LiveIds(s)| <= s.maxActive
    requires id in s.milestones && s.milestones[id].phase == Pending && s.milestones[id].remaining > 0
    requires BelowTarget(block, s.milestones[id])
    ensures var (s', m) := (EndBlock(env, block, s, skip).0, s.milestones[id]);
            && Invariant(s') && id in s'.milestones
            && s'.milestones[id] == CountedDown(m)
  {
    hide Invariant, Next, Walk, Funds, NewIds, PanickedSince;
    var done := WalkEffect(env, block, s, skip);
    assert id in done;
    NextBelowTarget(block, s.milestones[id]);
  }

  lemma NextBelowTarget(block: Block, m: Milestone)
    requires m.phase == Pending && m.remaining > 0 && BelowTarget(block, m)
    ensures Next(block, m) == CountedDown(m)
  {
  }

  // ---------- Genesis ----------

  ghost predicate UniqueIds(ms: seq<Milestone>) {
    forall i, j :: 0 <= i < j < |ms| ==> ms[i].id != ms[j].id
  }

  /** The feeds of the listed milestones are pairwise apart. */
  ghost predicate ListApart(ms: seq<Milestone>) {
    forall i, j :: 0 <= i < |ms| && 0 <= j < |ms| ==> Apart(ms[i].feed, ms[j].feed)
  }

  lemma EmptyInvariant(maxActive: int)
    ensures Invariant(Empty(maxActive))
  {
    var s := Empty(maxActive);
    forall key
      ensures !Indexed(s, key)
    {
    }
    forall feed
      ensures !HasLive(s, feed)
    {
    }
  }

  /** The records after writing a list of milestones. */
  function Recorded(records: map<Bytes, Milestone>, ms: seq<Milestone>): map<Bytes, Milestone>
    decreases |ms|
  {
    if ms == [] then records else Recorded(records[ms[0].id := ms[0]], ms[1..])
  }

  ghost function IdsOf(ms: seq<Milestone>): set<Bytes> {
    set i | 0 <= i < |ms| :: ms[i].id
  }

  lemma {:induction false} RecordedMeaning(records: map<Bytes, Milestone>, ms: seq<Milestone>)
    requires UniqueIds(ms)
    ensures Recorded(records, ms).Keys == records.Keys + IdsOf(ms)
    ensures forall id :: id in records && id !in IdsOf(ms) ==> Recorded(records, ms)[id] == records[id]
    ensures forall i :: 0 <= i < |ms| ==> Recorded(records, ms)[ms[i].id] == ms[i]
    decreases |ms|
  {
    if ms == [] {
    } else {
      var rest := ms[1..];
      assert forall i :: 0 <= i < |rest| ==> rest[i] == ms[i + 1];
      RecordedMeaning(records[ms[0].id := ms[0]], rest);
      assert IdsOf(ms) == {ms[0].id} + IdsOf(rest) by {
        forall id | id in IdsOf(ms)
          ensures id in {ms[0].id} + IdsOf(rest)
        {
          var i :| 0 <= i < |ms| && ms[i].id == id;
          if i > 0 {
            assert rest[i - 1].id == id;
          }
        }
      }
      assert ms[0].id !in IdsOf(rest);
      forall i | 0 <= i < |ms|
        ensures ms[i].id in IdsOf(ms) && Recorded(records, ms)[ms[i].id] == ms[i]
      {
        if i > 0 {
          assert ms[i] == rest[i - 1];
        }
      }
    }
  }

  lemma {:induction false} SetAllEffect(s: State, ms: seq<Milestone>)
    requires Invariant(s) && UniqueIds(ms) && ListApart(ms)
    requires forall i :: 0 <= i < |ms| ==> ms[i].id !in s.milestones && Fits(s, ms[i].feed)
    ensures var s' := SetAll(s, ms);
            && Invariant(s')
            && s'.milestones == Recorded(s.milestones, ms)
            && s'.maxActive == s.maxActive && s'.blocked == s.blocked
    decreases |ms|
  {
    hide Invariant, Apart, SetMilestone;
    if ms == [] {
    } else {
      RewriteKeepsInvariant(s, ms[0]);
      assert forall i :: 0 <= i < |ms[1..]| ==> ms[1..][i] == ms[i + 1];
      SetAllEffect(SetMilestone(s, ms[0]), ms[1..]);
    }
  }

  /** Genesis with unique IDs and feeds that are apart starts every run with exact indexes. */
  lemma GenesisInvariant(maxActive: int, ms: seq<Milestone>)
    requires UniqueIds(ms) && ListApart(ms)
    ensures Invariant(InitGenesis(maxActive, ms)) && BlockedMarked(InitGenesis(maxActive, ms))
  {
    hide Invariant, Apart;
    EmptyInvariant(maxActive);
    SetAllEffect(Empty(maxActive), ms);
  }

  /** Importing an export restores the milestones and rebuilds both indexes; only the flags start empty. */
  lemma ImportExport(s: State)
    requires Invariant(s)
    ensures forall id :: id in s.milestones ==> s.milestones[id].id == id
    ensures var t := InitGenesis(s.maxActive, Export(s));
            && t.milestones == s.milestones && t.index == s.index && t.active == s.active
            && t.maxActive == s.maxActive && t.blocked == {} && Invariant(t)
  {
    hide Invariant, Apart, InitGenesis, Export, UniqueIds, ListApart, IdsOf;
    AllKeyed(s);
    ExportMeaning(s);
    ImportMeaning(s.maxActive, Export(s));
    var t := InitGenesis(s.maxActive, Export(s));
    SameRecords(s.milestones, Export(s), t.milestones);
    SameIndexes(s, t);
  }

  lemma ImportMeaning(maxActive: int, ms: seq<Milestone>)
    requires UniqueIds(ms) && ListApart(ms)
    ensures var t := InitGenesis(maxActive, ms);
            && Invariant(t) && t.maxActive == maxActive && t.blocked == {}
            && t.milestones.Keys == IdsOf(ms)
            && forall i :: 0 <= i < |ms| ==> t.milestones[ms[i].id] == ms[i]
  {
    hide Invariant, Apart, SetAll, Recorded;
    EmptyInvariant(maxActive);
    SetAllEffect(Empty(maxActive), ms);
    RecordedMeaning(map[], ms);
    forall i | 0 <= i < |ms|
      ensures ms[i].id in IdsOf(ms)
    {
    }
  }

  lemma SameRecords(records: map<Bytes, Milestone>, ms: seq<Milestone>, imported: map<Bytes, Milestone>)
    requires IdsOf(ms) == records.Keys && imported.Keys == IdsOf(ms)
    requires forall i :: 0 <= i < |ms| ==> ms[i].id in records && ms[i] == records[ms[i].id]
    requires forall i :: 0 <= i < |ms| ==> ms[i].id in imported && imported[ms[i].id] == ms[i]
    ensures imported == records
  {
    forall id | id in records
      ensures imported[id] == records[id]
    {
      assert id in IdsOf(ms);
      var i :| 0 <= i < |ms| && ms[i].id == id;
    }
  }

  lemma AllKeyed(s: State)
    requires Invariant(s)
    ensures forall id :: id in s.milestones ==> s.milestones[id].id == id && Fits(s, s.milestones[id].feed)
  {
    hide Invariant, Fits;
    forall id | id in s.milestones
      ensures s.milestones[id].id == id && Fits(s, s.milestones[id].feed)
    {
      KeyedById(s, id);
    }
  }

  /** The export lists every milestone once. */
  lemma ExportMeaning(s: State)
    requires forall id :: id in s.milestones ==> s.milestones[id].id == id && Fits(s, s.milestones[id].feed)
    ensures UniqueIds(Export(s)) && ListApart(Export(s)) && IdsOf(Export(s)) == s.milestones.Keys
    ensures forall i :: 0 <= i < |Export(s)| ==>
              Export(s)[i].id in s.milestones && Export(s)[i] == s.milestones[Export(s)[i].id]
  {
    hide Apart, SortedKeys;
    var ids := SortedKeys(s.milestones.Keys);
    var ms := Export(s);
    assert forall i :: 0 <= i < |ids| ==> ids[i] in ids && ms[i].id == ids[i] && ms[i] == s.milestones[ids[i]];
    forall id | id in s.milestones
      ensures id in IdsOf(ms)
    {
      assert id in ids;
      var i :| 0 <= i < |ids| && ids[i] == id;
      assert ms[i].id == id;
    }
  }

  lemma SameIndexes(s: State, t: State)
    requires Invariant(s) && Invariant(t) && s.milestones == t.milestones
    ensures s.index == t.index && s.active == t.active
  {
    hide IndexesExact, AttemptsExact;
    IndexesDetermined(s, t);
  }
}
