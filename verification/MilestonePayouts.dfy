/** Which payouts succeed, over every run, and what the messages of the milestone module change. */
module MilestonePayouts {
  import opened Order
  import opened Prelude
  import opened MilestoneState
  import opened MilestoneRuns

  // ---------- One attempt ----------

  predicate DecodesPool(env: Environment, m: Milestone) {
    env.account(m.pool).Some?
  }

  /** The payout is a number of coins that the bank can represent. */
  predicate Representable(m: Milestone) {
    0 < m.payout < 0x8000_0000_0000_0000
  }

  /** The bank makes the transfer: it does not refuse it, and the escrow account holds the amount. */
  predicate Transferred(env: Environment, m: Milestone, a: Attempt) {
    DecodesPool(env, m) && env.hasBank && Representable(m) && !a.refused && m.payout <= a.balance
  }

  /** What the outcome of an attempt says about the milestone, the bank and the escrow balance it found. */
  ghost predicate AttemptSound(env: Environment, m: Milestone, a: Attempt) {
    && (a.outcome.Paid? <==> Transferred(env, m, a) && env.account(m.pool) != Some(env.escrowAccount))
    && (a.outcome.KeptInEscrow? <==> Transferred(env, m, a) && env.account(m.pool) == Some(env.escrowAccount))
    && (a.outcome.Paid? ==> a.outcome.amount == m.payout)
    && (a.outcome.BadAddress? <==> !DecodesPool(env, m))
    && (a.outcome.NoBank? <==> DecodesPool(env, m) && !env.hasBank)
    && (a.outcome.ZeroAmount? <==> DecodesPool(env, m) && env.hasBank && m.payout == 0)
    && (a.outcome.Panicked? <==> DecodesPool(env, m) && env.hasBank && m.payout >= 0x8000_0000_0000_0000)
  }

  /** What an attempt left of the balance it found. */
  function Left(a: Attempt): int {
    if a.outcome.Paid? then a.balance - a.outcome.amount else a.balance
  }

  // ---------- Every run ----------

  ghost predicate Attempted(s: State, id: Bytes) {
    exists i :: 0 <= i < |s.attempts| && s.attempts[i].id == id
  }

  /** Money only leaves by payouts: each attempt finds at least what the one before left. */
  ghost predicate BalancesChain(s: State) {
    && (forall i :: 0 <= i < |s.attempts| - 1 ==> s.attempts[i + 1].balance >= Left(s.attempts[i]))
    && (s.attempts != [] ==> s.escrow >= Left(s.attempts[|s.attempts| - 1]))
  }

  /** Milestones that were imported as achieved have no attempt of their own. */
  ghost predicate LogSound(env: Environment, s: State, imported: set<Bytes>) {
    && (forall id :: id in s.milestones ==> s.milestones[id].id == id)
    && (forall i :: 0 <= i < |s.attempts| ==>
          s.attempts[i].id in s.milestones && AttemptSound(env, s.milestones[s.attempts[i].id], s.attempts[i]))
    && (forall id :: id in s.milestones && s.milestones[id].phase == Achieved ==> id in imported || Attempted(s, id))
    && BalancesChain(s)
  }

  lemma OutcomeIsSound(env: Environment, block: Block, escrow: int, m: Milestone)
    ensures AttemptSound(env, m, Attempt(m.id, escrow, m.id in block.failing, PayoutOutcome(env, block, escrow, m)))
  {
  }

  /** Writing a milestone with the pool and the payout it had, and not achieved anew, keeps the log sound. */
  lemma WriteKeepsLog(env: Environment, s: State, m: Milestone, imported: set<Bytes>)
    requires LogSound(env, s, imported)
    requires m.id in s.milestones ==> s.milestones[m.id].pool == m.pool && s.milestones[m.id].payout == m.payout
    requires m.phase == Achieved ==> m.id in s.milestones && s.milestones[m.id].phase == Achieved
    ensures LogSound(env, SetMilestone(s, m), imported)
  {
    hide FeedIds, IndexKey;
    var s' := SetMilestone(s, m);
    assert s'.attempts == s.attempts && s'.escrow == s.escrow && s'.milestones == s.milestones[m.id := m];
    forall id | id in s'.milestones && s'.milestones[id].phase == Achieved
      ensures id in imported || Attempted(s', id)
    {
      assert id in imported || Attempted(s, id);
    }
    forall i | 0 <= i < |s'.attempts|
      ensures AttemptSound(env, s'.milestones[s'.attempts[i].id], s'.attempts[i])
    {
      assert AttemptSound(env, s.milestones[s.attempts[i].id], s.attempts[i]);
    }
  }

  lemma PayoutKeepsLog(env: Environment, block: Block, s: State, m: Milestone, imported: set<Bytes>)
    requires LogSound(env, s, imported) && m.id in s.milestones
    requires s.milestones[m.id].pool == m.pool && s.milestones[m.id].payout == m.payout && m.phase == Achieved
    ensures LogSound(env, TriggerPayout(env, block, SetMilestone(s, m), m), imported)
  {
    hide FeedIds, IndexKey, AttemptSound, PayoutOutcome;
    var s1 := SetMilestone(s, m);
    var s' := TriggerPayout(env, block, s1, m);
    var a := Attempt(m.id, s.escrow, m.id in block.failing, PayoutOutcome(env, block, s.escrow, m));
    assert s'.attempts == s.attempts + [a] && s'.milestones == s.milestones[m.id := m];
    OutcomeIsSound(env, block, s.escrow, m);
    forall i | 0 <= i < |s'.attempts|
      ensures s'.attempts[i].id in s'.milestones && AttemptSound(env, s'.milestones[s'.attempts[i].id], s'.attempts[i])
    {
      if i < |s.attempts| {
        assert s'.attempts[i] == s.attempts[i];
        SamePayout(env, s.milestones[s.attempts[i].id], s'.milestones[s.attempts[i].id], s.attempts[i]);
      }
    }
    forall id | id in s'.milestones && s'.milestones[id].phase == Achieved
      ensures id in imported || Attempted(s', id)
    {
      if id == m.id {
        assert s'.attempts[|s.attempts|].id == id;
      } else if id !in imported {
        var i :| 0 <= i < |s.attempts| && s.attempts[i].id == id;
        assert s'.attempts[i].id == id;
      }
    }
  }

  lemma SamePayout(env: Environment, m: Milestone, m': Milestone, a: Attempt)
    requires AttemptSound(env, m, a) && m'.pool == m.pool && m'.payout == m.payout
    ensures AttemptSound(env, m', a)
  {
  }

  lemma ProcessKeepsLog(env: Environment, block: Block, s: State, feed: Bytes, m: Milestone, imported: set<Bytes>)
    requires LogSound(env, s, imported) && m.id in s.milestones && s.milestones[m.id] == m && Live(m)
    ensures LogSound(env, ProcessOne(env, block, s, feed, m), imported)
  {
    hide LogSound, SetMilestone, TriggerPayout;
    var m' := Advance(m, feed in block.stale, PriceOf(block, feed));
    if m' == m {
    } else if m'.phase == Achieved {
      PayoutKeepsLog(env, block, s, m', imported);
    } else {
      WriteKeepsLog(env, s, m', imported);
    }
  }

  lemma {:induction false} WalkIdsKeepsLog(
      env: Environment, block: Block, s: State, feed: Bytes, ids: seq<Bytes>, count: int, imported: set<Bytes>)
    requires LogSound(env, s, imported)
    ensures LogSound(env, WalkIds(env, block, s, feed, ids, count).0, imported)
    decreases |ids|
  {
    hide LogSound, ProcessOne;
    if ids == [] || count >= s.maxActive {
    } else if ids[0] !in s.milestones || !Live(s.milestones[ids[0]]) {
      WalkIdsKeepsLog(env, block, s, feed, ids[1..], count, imported);
    } else {
      KeyedInLog(env, s, ids[0], imported);
      ProcessKeepsLog(env, block, s, feed, s.milestones[ids[0]], imported);
      var s1 := ProcessOne(env, block, s, feed, s.milestones[ids[0]]);
      WalkIdsKeepsLog(env, block, s1, feed, ids[1..], count + 1, imported);
    }
  }

  lemma KeyedInLog(env: Environment, s: State, id: Bytes, imported: set<Bytes>)
    requires LogSound(env, s, imported) && id in s.milestones
    ensures s.milestones[id].id == id
  {
  }

  lemma FlagKeepsLog(env: Environment, s: State, feed: Bytes, stale: bool, imported: set<Bytes>)
    requires LogSound(env, s, imported)
    ensures LogSound(env, SetBlocked(s, feed, stale), imported)
  {
    hide AttemptSound;
    var s' := SetBlocked(s, feed, stale);
    forall id | id in s'.milestones && s'.milestones[id].phase == Achieved
      ensures id in imported || Attempted(s', id)
    {
      assert id in imported || Attempted(s, id);
    }
  }

  lemma {:induction false} WalkFeedsKeepsLog(
      env: Environment, block: Block, s: State, feeds: seq<Bytes>, count: int, skip: bool, imported: set<Bytes>)
    requires LogSound(env, s, imported)
    ensures LogSound(env, WalkFeeds(env, block, s, feeds, count, skip), imported)
    decreases |feeds|
  {
    hide LogSound, WalkIds, FeedIds, SetBlocked;
    if feeds == [] || count >= s.maxActive {
    } else if skip && feeds[0] in block.stale && feeds[0] in s.blocked {
      WalkFeedsKeepsLog(env, block, s, feeds[1..], count, skip, imported);
    } else {
      var (s1, count1) := WalkIds(env, block, s, feeds[0], FeedIds(s.index, feeds[0]), count);
      var stale := feeds[0] in block.stale;
      WalkIdsKeepsLog(env, block, s, feeds[0], FeedIds(s.index, feeds[0]), count, imported);
      FlagKeepsLog(env, s1, feeds[0], stale, imported);
      WalkFeedsKeepsLog(env, block, SetBlocked(s1, feeds[0], stale), feeds[1..], count1, skip, imported);
    }
  }

  lemma ApplyKeepsLog(env: Environment, s: State, op: Op, skip: bool, imported: set<Bytes>)
    requires LogSound(env, s, imported)
    ensures LogSound(env, Apply(env, s, op, skip), imported)
  {
    hide LogSound, SetMilestone, WalkFeeds, PanickedSince, ValidateCreate;
    match op {
      case CreateOp(msg) =>
        if Create(env, s, msg).1 {
          var m := Milestone(msg.id, msg.feed, msg.targetPrice, msg.duration, Pending, msg.pool, msg.payout);
          WriteKeepsLog(env, s, m, imported);
        }
      case BlockOp(block) =>
        WalkFeedsKeepsLog(env, block, s, SortedKeys(s.active), 0, skip, imported);
      case TargetOp(id, target) =>
        if id in s.milestones {
          KeyedInLog(env, s, id, imported);
          WriteKeepsLog(env, s, s.milestones[id].(targetPrice := target), imported);
        }
      case FundOp(amount) =>
        FundingKeepsLog(env, s, amount, imported);
    }
  }

  lemma FundingKeepsLog(env: Environment, s: State, amount: nat, imported: set<Bytes>)
    requires LogSound(env, s, imported)
    ensures LogSound(env, s.(escrow := s.escrow + amount), imported)
  {
    hide AttemptSound;
    var s' := s.(escrow := s.escrow + amount);
    forall id | id in s'.milestones && s'.milestones[id].phase == Achieved
      ensures id in imported || Attempted(s', id)
    {
      assert id in imported || Attempted(s, id);
    }
  }

  /**
   Over every run, whatever the feeds: every milestone achieved in it has an attempt; an attempt is paid
   if and only if the pool decodes to another account, there is a bank, the payout is between 1 and
   2^63 - 1, the bank does not refuse and the escrow balance suffices; and each attempt finds what the one
   before left, or more.
   */
  lemma {:induction false} RunKeepsLog(env: Environment, s: State, ops: seq<Op>, skip: bool, imported: set<Bytes>)
    requires LogSound(env, s, imported)
    ensures var s' := Run(env, s, ops, skip);
            && LogSound(env, s', imported)
            && (forall i :: 0 <= i < |s'.attempts| ==>
                  var (a, m) := (s'.attempts[i], s'.milestones[s'.attempts[i].id]);
                  a.outcome.Paid? <==> Transferred(env, m, a) && env.account(m.pool) != Some(env.escrowAccount))
    decreases |ops|
  {
    hide Apply, BalancesChain;
    if ops == [] {
    } else {
      ApplyKeepsLog(env, s, ops[0], skip, imported);
      RunKeepsLog(env, Apply(env, s, ops[0], skip), ops[1..], skip, imported);
    }
  }

  /** A run may start from any state without a log, such as an imported genesis. */
  lemma FreshLogSound(env: Environment, s: State)
    requires s.attempts == [] && forall id :: id in s.milestones ==> s.milestones[id].id == id
    ensures LogSound(env, s, set id | id in s.milestones && s.milestones[id].phase == Achieved)
  {
  }

  // ---------- Messages ----------

  /** A creation is accepted exactly under these conditions, and otherwise changes nothing. */
  lemma CreateOutcome(env: Environment, s: State, msg: CreateMsg)
    ensures Create(env, s, msg).1 <==>
              && env.account(msg.creator).Some? && msg.creator in env.authorities
              && |msg.id| > 0 && |msg.feed| > 0 && msg.targetPrice > 0 && msg.duration > 0 && msg.payout > 0
              && |msg.pool| > 0 && env.account(msg.pool).Some?
              && msg.id !in s.milestones
    ensures !Create(env, s, msg).1 ==> Create(env, s, msg).0 == s
    ensures Create(env, s, msg).1 ==>
              var m := Milestone(msg.id, msg.feed, msg.targetPrice, msg.duration, Pending, msg.pool, msg.payout);
              Create(env, s, msg).0.milestones == s.milestones[msg.id := m]
  {
    hide FeedIds, IndexKey;
  }

  /** A target-price proposal changes that one price, or nothing for an unknown ID. */
  lemma TargetOutcome(s: State, id: Bytes, target: nat, other: Bytes)
    requires forall i :: i in s.milestones ==> s.milestones[i].id == i
    ensures var (s', ok) := UpdateTarget(s, id, target);
            && ok == (id in s.milestones)
            && (!ok ==> s' == s)
            && s'.milestones.Keys == s.milestones.Keys
            && (other in s.milestones ==>
                  s'.milestones[other] ==
                  if other == id then s.milestones[id].(targetPrice := target) else s.milestones[other])
  {
    hide FeedIds, IndexKey;
  }
}
