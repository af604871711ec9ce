/** What the end-of-block walk does to every milestone, flag, payout and the escrow balance. */
module MilestoneWalk {
  import opened Order
  import opened MilestoneState
  import opened MilestoneIndexes

  // ---------- The log of payout attempts ----------

  /** The sum of the successful payouts to other accounts. */
  function PaidTotal(attempts: seq<Attempt>): nat {
    if attempts == [] then 0
    else
      PaidTotal(attempts[..|attempts| - 1])
      + (if attempts[|attempts| - 1].outcome.Paid? then attempts[|attempts| - 1].outcome.amount else 0)
  }

  /** No milestone is attempted twice, and whatever is attempted is achieved. */
  ghost predicate AttemptsExact(s: State) {
    && (forall i, j :: 0 <= i < j < |s.attempts| ==> s.attempts[i].id != s.attempts[j].id)
    && (forall i :: 0 <= i < |s.attempts| ==>
          s.attempts[i].id in s.milestones && s.milestones[s.attempts[i].id].phase == Achieved)
  }

  ghost predicate Invariant(s: State) {
    IndexesExact(s) && FeedsApart(s) && AttemptsExact(s)
  }

  /** The IDs attempted since an earlier state. */
  ghost function NewIds(s: State, s': State): set<Bytes> {
    set i | |s.attempts| <= i < |s'.attempts| :: s'.attempts[i].id
  }

  /** Escrow plus everything paid so far: unchanged by payouts. */
  function Funds(s: State): int {
    s.escrow + PaidTotal(s.attempts)
  }

  lemma PaidTotalAppend(attempts: seq<Attempt>, a: Attempt)
    ensures PaidTotal(attempts + [a]) == PaidTotal(attempts) + (if a.outcome.Paid? then a.outcome.amount else 0)
  {
    assert (attempts + [a])[..|attempts|] == attempts;
  }

  // ---------- One milestone ----------

  /** The milestone after its feed was walked in this block. */
  function Next(block: Block, m: Milestone): Milestone {
    Advance(m, m.feed in block.stale, PriceOf(block, m.feed))
  }

  predicate PaysOut(block: Block, m: Milestone) {
    Live(m) && Next(block, m).phase == Achieved
  }

  /** The milestones with those in `done` advanced once. */
  function AdvanceAll(block: Block, ms: map<Bytes, Milestone>, done: set<Bytes>): map<Bytes, Milestone> {
    map id | id in ms :: if id in done then Next(block, ms[id]) else ms[id]
  }

  /**
   From s to s' exactly the milestones in `done`, all of them live, advanced once; each of those that
   thereby became achieved was attempted once; money left the escrow only as logged.
   */
  ghost predicate Advanced(block: Block, s: State, s': State, done: set<Bytes>) {
    && Invariant(s')
    && s'.maxActive == s.maxActive
    && (forall id :: id in done ==> id in s.milestones && Live(s.milestones[id]))
    && s'.milestones == AdvanceAll(block, s.milestones, done)
    && s.attempts <= s'.attempts
    && NewIds(s, s') == (set id | id in done && PaysOut(block, s.milestones[id]))
    && Funds(s') == Funds(s)
    && (s.escrow >= 0 ==> s'.escrow >= 0)
  }

  lemma AdvancedNothing(block: Block, s: State, blocked: set<Bytes>)
    requires Invariant(s)
    ensures Advanced(block, s, s, {})
    ensures Advanced(block, s, s.(blocked := blocked), {})
  {
    hide Advance, FeedIds, IndexKey;
    IgnoresBlocked(s, blocked);
    assert AdvanceAll(block, s.milestones, {}) == s.milestones;
  }

  lemma IgnoresBlocked(s: State, blocked: set<Bytes>)
    requires Invariant(s)
    ensures Invariant(s.(blocked := blocked))
  {
    hide FeedIds, IndexKey;
    var t := s.(blocked := blocked);
    SameFeeds(s, t);
    forall key
      ensures key in t.index <==> Indexed(t, key)
    {
      assert Indexed(s, key) <==> Indexed(t, key);
    }
    forall feed
      ensures feed in t.active <==> HasLive(t, feed)
    {
      assert HasLive(s, feed) <==> HasLive(t, feed);
    }
  }

  lemma AdvancedCompose(block: Block, s: State, t: State, u: State, first: set<Bytes>, second: set<Bytes>)
    requires Advanced(block, s, t, first) && Advanced(block, t, u, second) && first !! second
    ensures Advanced(block, s, u, first + second)
  {
    hide Advance, Invariant, Funds, Next, PaysOut, Live;
    assert forall id :: id in second ==> t.milestones[id] == s.milestones[id];
    assert u.milestones == AdvanceAll(block, s.milestones, first + second);
    assert NewIds(s, u) == NewIds(s, t) + NewIds(t, u) by {
      forall id | id in NewIds(s, t)
        ensures id in NewIds(s, u)
      {
        var i :| |s.attempts| <= i < |t.attempts| && t.attempts[i].id == id;
        assert u.attempts[i] == t.attempts[i];
      }
      forall id | id in NewIds(s, u)
        ensures id in NewIds(s, t) + NewIds(t, u)
      {
        var i :| |s.attempts| <= i < |u.attempts| && u.attempts[i].id == id;
        if i < |t.attempts| {
          assert u.attempts[i] == t.attempts[i];
        }
      }
    }
  }

  lemma ProcessOneEffect(env: Environment, block: Block, s: State, m: Milestone)
    requires Invariant(s) && m.id in s.milestones && s.milestones[m.id] == m && Live(m)
    ensures var s' := ProcessOne(env, block, s, m.feed, m);
            Advanced(block, s, s', {m.id}) && s'.blocked == s.blocked
  {
    hide Advance, FeedIds, IndexKey, PayoutOutcome, IndexesExact, FeedsApart;
    hide SetMilestone, Advanced, AttemptsExact, Live;
    var m' := Next(block, m);
    AdvanceKeepsIdentity(block, m);
    if m' == m {
      AdvancedInPlace(block, s, m);
    } else {
      var s1 := SetMilestone(s, m');
      WriteEffect(s, m, m');
      if m'.phase == Achieved {
        var outcome := PayoutOutcome(env, block, s1.escrow, m');
        OutcomeAffordable(env, block, s1.escrow, m');
        var s2 := ProcessOne(env, block, s, m.feed, m);
        SameFeeds(s1, s2);
        AdvancedWithAttempt(block, s, m, Attempt(m.id, s1.escrow, m.id in block.failing, outcome), s2);
      } else {
        AdvancedWithoutAttempt(block, s, m, s1);
      }
    }
  }

  lemma AdvancedInPlace(block: Block, s: State, m: Milestone)
    requires Invariant(s) && m.id in s.milestones && s.milestones[m.id] == m && Live(m) && Next(block, m) == m
    ensures Advanced(block, s, s, {m.id})
  {
    hide Advance, IndexesExact, FeedsApart, AttemptsExact, Next;
    AdvanceKeepsIdentity(block, m);
    assert AdvanceAll(block, s.milestones, {m.id}) == s.milestones;
    assert !PaysOut(block, m);
    assert NewIds(s, s) == {};
  }

  lemma WriteEffect(s: State, m: Milestone, m': Milestone)
    requires Invariant(s) && m.id in s.milestones && s.milestones[m.id] == m && m'.id == m.id && m'.feed == m.feed
    ensures var s1 := SetMilestone(s, m');
            && IndexesExact(s1) && FeedsApart(s1) && s1.milestones == s.milestones[m.id := m']
            && s1.blocked == s.blocked && s1.maxActive == s.maxActive && s1.escrow == s.escrow &&
                 s1.attempts == s.attempts
  {
    hide FeedIds, IndexKey, Apart, Indexed, HasLive, AttemptsExact;
    SetMilestoneKeepsIndexes(s, m');
    WriteKeepsApart(s, m', SetMilestone(s, m'));
  }

  /** After writing a milestone that was never attempted, the log is still exact. */
  lemma LogStaysExact(s: State, s1: State, m: Milestone, m': Milestone)
    requires AttemptsExact(s) && m.id in s.milestones && s.milestones[m.id] == m && Live(m)
    requires s1.milestones == s.milestones[m.id := m'] && s1.attempts == s.attempts
    ensures AttemptsExact(s1)
    ensures forall i :: 0 <= i < |s.attempts| ==> s.attempts[i].id != m.id
  {
  }

  lemma AdvancedWithoutAttempt(block: Block, s: State, m: Milestone, s1: State)
    requires Invariant(s) && m.id in s.milestones && s.milestones[m.id] == m && Live(m) &&
               Next(block, m).phase != Achieved
    requires IndexesExact(s1) && FeedsApart(s1) && s1.milestones == s.milestones[m.id := Next(block, m)]
    requires s1.maxActive == s.maxActive && s1.escrow == s.escrow && s1.attempts == s.attempts
    ensures Advanced(block, s, s1, {m.id})
  {
    hide Advance, IndexesExact, FeedsApart, AttemptsExact, Next;
    LogStaysExact(s, s1, m, Next(block, m));
    assert AdvanceAll(block, s.milestones, {m.id}) == s1.milestones;
    assert !PaysOut(block, m);
    assert NewIds(s, s1) == {};
  }

  lemma AdvancedWithAttempt(block: Block, s: State, m: Milestone, attempt: Attempt, s': State)
    requires Invariant(s) && m.id in s.milestones && s.milestones[m.id] == m && Live(m) &&
               Next(block, m).phase == Achieved
    requires s'.milestones == s.milestones[m.id := Next(block, m)]
    requires IndexesExact(SetMilestone(s, Next(block, m))) && FeedsApart(s')
    requires SetMilestone(s, Next(block, m)).milestones == s'.milestones
    requires s'.index == SetMilestone(s, Next(block, m)).index && s'.active == SetMilestone(s, Next(block, m)).active
    requires s'.maxActive == s.maxActive && s'.attempts == s.attempts + [attempt] && attempt.id == m.id
    requires attempt.outcome.Paid? ==> attempt.outcome.amount <= s.escrow
    requires s'.escrow == s.escrow - (if attempt.outcome.Paid? then attempt.outcome.amount else 0)
    ensures Advanced(block, s, s', {m.id})
  {
    hide Advance, IndexesExact, FeedsApart, AttemptsExact, Next, SetMilestone;
    var s1 := SetMilestone(s, Next(block, m)).(attempts := s.attempts);
    IgnoresPayout(SetMilestone(s, Next(block, m)), s');
    LogStaysExact(s, s1, m, Next(block, m));
    LogGrowsExact(s1, s', attempt);
    PaidTotalAppend(s.attempts, attempt);
    assert AdvanceAll(block, s.milestones, {m.id}) == s'.milestones;
    assert PaysOut(block, m);
    assert s'.attempts[|s.attempts|].id == m.id;
    assert NewIds(s, s') == {m.id};
  }

  lemma LogGrowsExact(s1: State, s': State, attempt: Attempt)
    requires AttemptsExact(s1) && s'.milestones == s1.milestones && s'.attempts == s1.attempts + [attempt]
    requires attempt.id in s1.milestones && s1.milestones[attempt.id].phase == Achieved
    requires forall i :: 0 <= i < |s1.attempts| ==> s1.attempts[i].id != attempt.id
    ensures AttemptsExact(s')
  {
  }

  lemma AdvanceKeepsIdentity(block: Block, m: Milestone)
    ensures Next(block, m).id == m.id && Next(block, m).feed == m.feed
    ensures Next(block, m) == m && Live(m) ==> Next(block, m).phase != Achieved
  {
  }

  lemma OutcomeAffordable(env: Environment, block: Block, escrow: int, m: Milestone)
    ensures var outcome := PayoutOutcome(env, block, escrow, m); outcome.Paid? ==> outcome.amount <= escrow
  {
  }

  lemma IgnoresPayout(s: State, s': State)
    requires IndexesExact(s)
    requires s'.milestones == s.milestones && s'.index == s.index && s'.active == s.active
    ensures IndexesExact(s')
  {
    hide IndexKey;
    forall key
      ensures key in s'.index <==> Indexed(s', key)
    {
      assert Indexed(s, key) <==> Indexed(s', key);
    }
    forall feed
      ensures feed in s'.active <==> HasLive(s', feed)
    {
      assert HasLive(s, feed) <==> HasLive(s', feed);
    }
  }

  // ---------- The milestones of one feed ----------

  ghost predicate Distinct(ids: seq<Bytes>) {
    forall i, j :: 0 <= i < j < |ids| ==> ids[i] != ids[j]
  }

  ghost function Elements(ids: seq<Bytes>): set<Bytes> {
    set i | 0 <= i < |ids| :: ids[i]
  }

  lemma {:induction false} WalkIdsEffect(
      env: Environment, block: Block, s: State, feed: Bytes, ids: seq<Bytes>, count: int) returns (done: set<Bytes>)
    requires Invariant(s) && Distinct(ids)
    requires forall id :: id in ids ==> id in s.milestones && Live(s.milestones[id]) && s.milestones[id].feed == feed
    ensures var (s', count') := WalkIds(env, block, s, feed, ids, count);
            && Advanced(block, s, s', done)
            && s'.blocked == s.blocked
            && count' == count + |done|
    ensures done <= Elements(ids)
    ensures count + |ids| <= s.maxActive ==> done == Elements(ids)
    ensures Budgeted(s.maxActive, count, done, Elements(ids))
    decreases |ids|
  {
    hide Advance, Advanced, Invariant, ProcessOne, Live, AdvanceAll, Next;
    if ids == [] || count >= s.maxActive {
      done := {};
      AdvancedNothing(block, s, s.blocked);
      assert ids == [] ==> Elements(ids) == {};
    } else {
      var m := s.milestones[ids[0]];
      KeyedById(s, ids[0]);
      var s1 := ProcessOne(env, block, s, feed, m);
      ProcessOneEffect(env, block, s, m);
      OthersUntouched(block, s, s1, {m.id});
      assert forall id :: id in ids[1..] ==> id in ids && id != ids[0];
      var rest := WalkIdsEffect(env, block, s1, feed, ids[1..], count + 1);
      assert ids[0] !in Elements(ids[1..]);
      assert {m.id} !! rest;
      AdvancedCompose(block, s, s1, WalkIds(env, block, s, feed, ids, count).0, {m.id}, rest);
      done := {m.id} + rest;
      ElementsSplit(ids);
    }
  }

  lemma ElementsSplit(ids: seq<Bytes>)
    requires ids != []
    ensures Elements(ids) == {ids[0]} + Elements(ids[1..])
  {
    assert forall i :: 0 <= i < |ids[1..]| ==> ids[1..][i] == ids[i + 1];
    forall id | id in Elements(ids)
      ensures id in {ids[0]} + Elements(ids[1..])
    {
      var i :| 0 <= i < |ids| && ids[i] == id;
      if i > 0 {
        assert ids[1..][i - 1] == id;
      }
    }
  }

  lemma KeyedById(s: State, id: Bytes)
    requires Invariant(s) && id in s.milestones
    ensures s.milestones[id].id == id && Fits(s, s.milestones[id].feed)
  {
    hide Indexed, HasLive, Fits;
  }

  lemma OthersUntouched(block: Block, s: State, s': State, done: set<Bytes>)
    requires Advanced(block, s, s', done)
    ensures Invariant(s') && s'.maxActive == s.maxActive && s'.milestones.Keys == s.milestones.Keys
    ensures forall id :: id in s.milestones && id !in done ==> s'.milestones[id] == s.milestones[id]
    ensures forall id :: id in s.milestones ==> s'.milestones[id].feed == s.milestones[id].feed
  {
    hide Advance, Invariant, Live, Funds, NewIds, PaysOut;
    forall id | id in s.milestones
      ensures s'.milestones[id].feed == s.milestones[id].feed
    {
      AdvanceKeepsIdentity(block, s.milestones[id]);
    }
  }

  // ---------- All feeds ----------

  /** The live milestones of the given feeds. */
  ghost function LiveIn(s: State, feeds: seq<Bytes>): set<Bytes> {
    set id | id in s.milestones && Live(s.milestones[id]) && s.milestones[id].feed in feeds
  }

  ghost predicate Skipped(block: Block, s: State, feed: Bytes, skip: bool) {
    skip && feed in block.stale && feed in s.blocked
  }

  /** The live milestones that a walk over these feeds reaches. */
  ghost function Reached(block: Block, s: State, feeds: seq<Bytes>, skip: bool): set<Bytes> {
    set id | id in s.milestones && Live(s.milestones[id]) && s.milestones[id].feed in feeds
             && !Skipped(block, s, s.milestones[id].feed, skip)
  }

  /** Every listed feed has a live milestone, and the budget covers all of them. */
  ghost predicate Affordable(s: State, feeds: seq<Bytes>, count: int) {
    (forall feed :: feed in feeds ==> HasLive(s, feed)) && count + |LiveIn(s, feeds)| <= s.maxActive
  }

  /** Everything within reach was advanced, and the flags of the feeds say whether they are stale. */
  ghost predicate Complete(block: Block, s: State, s': State, feeds: seq<Bytes>, done: set<Bytes>, skip: bool) {
    && done == Reached(block, s, feeds, skip)
    && forall feed :: feed in s'.blocked <==> if feed in feeds then feed in block.stale else feed in s.blocked
  }

  /** Starting at the given count, as many of all are done as the budget allows. */
  ghost predicate Budgeted(budget: int, count: int, done: set<Bytes>, all: set<Bytes>) {
    (done == {} || count + |done| <= budget) && (done == all || count + |done| >= budget)
  }

  /** Walking one feed, seen from the feeds still to come. */
  lemma WalkOneFeed(
      env: Environment, block: Block, s: State, feed: Bytes, count: int, rest: seq<Bytes>) returns (head: set<Bytes>)
    requires Invariant(s) && Fits(s, feed) && feed !in rest
    ensures var (s1, count1) := WalkIds(env, block, s, feed, FeedIds(s.index, feed), count);
            var s2 := SetBlocked(s1, feed, feed in block.stale);
            && Advanced(block, s, s2, head)
            && s2.maxActive == s.maxActive && count1 == count + |head|
            && Invariant(s2) && s2.milestones.Keys == s.milestones.Keys
            && (forall g :: Fits(s2, g) <==> Fits(s, g))
            && (forall id :: id in s.milestones && s.milestones[id].feed != feed ==>
                 s2.milestones[id] == s.milestones[id])
            && (forall id :: id in s.milestones ==> s2.milestones[id].feed == s.milestones[id].feed)
            && (forall g :: g != feed ==> (g in s2.blocked <==> g in s.blocked))
            && (feed in s2.blocked <==> feed in block.stale)
    ensures head <= LiveIn(s, [feed])
    ensures count + |LiveIn(s, [feed])| <= s.maxActive ==> head == LiveIn(s, [feed])
    ensures Budgeted(s.maxActive, count, head, LiveIn(s, [feed]))
  {
    hide Advance, Advanced, Invariant, Live, AdvanceAll, Next, FeedIds, Fits, WalkIds;
    var ids := FeedIds(s.index, feed);
    InvariantGivesFeedIds(s, feed);
    var (s1, count1) := WalkIds(env, block, s, feed, ids, count);
    head := WalkIdsEffect(env, block, s, feed, ids, count);
    var s2 := SetBlocked(s1, feed, feed in block.stale);
    OthersUntouched(block, s, s1, head);
    AdvancedNothing(block, s1, s2.blocked);
    AdvancedCompose(block, s, s1, s2, head, {});
    assert head + {} == head;
    OthersUntouched(block, s, s2, head);
    SameFeeds(s, s2);
    DistinctSize(ids);
    assert forall id :: id in head ==> s.milestones[id].feed == feed;
  }

  lemma {:induction false} WalkFeedsEffect(
      env: Environment, block: Block, s: State, feeds: seq<Bytes>, count: int, skip: bool) returns (done: set<Bytes>)
    requires Invariant(s) && Distinct(feeds)
    requires forall feed :: feed in feeds ==> Fits(s, feed)
    ensures var s' := WalkFeeds(env, block, s, feeds, count, skip);
            && Advanced(block, s, s', done)
            && done <= Reached(block, s, feeds, skip)
            && (Affordable(s, feeds, count) ==> Complete(block, s, s', feeds, done, skip))
    ensures Budgeted(s.maxActive, count, done, Reached(block, s, feeds, skip))
    decreases |feeds|
  {
    hide Advance, Advanced, Invariant, Live, AdvanceAll, Next, FeedIds, Fits, WalkIds;
    hide HasLive, Complete, Affordable, Reached, Skipped, SetBlocked, LiveIn, Budgeted;
    var s' := WalkFeeds(env, block, s, feeds, count, skip);
    if feeds == [] {
      done := {};
      AdvancedNothing(block, s, s.blocked);
      CompleteEmpty(block, s, skip);
      NothingDone(s.maxActive, count, Reached(block, s, feeds, skip));
    } else {
      var feed, rest := feeds[0], feeds[1..];
      assert feeds == [feed] + rest && feed !in rest;
      assert forall i, j :: 0 <= i < j < |rest| ==> rest[i] == feeds[i + 1] && rest[j] == feeds[j + 1];
      if count >= s.maxActive {
        done := {};
        AdvancedNothing(block, s, s.blocked);
        NothingDone(s.maxActive, count, Reached(block, s, feeds, skip));
        Unaffordable(s, feed, rest, count);
      } else if skip && feed in block.stale && feed in s.blocked {
        done := WalkFeedsEffect(env, block, s, rest, count, skip);
        SkipStep(block, s, s', feed, rest, count, done);
      } else {
        var (s1, count1) := WalkIds(env, block, s, feed, FeedIds(s.index, feed), count);
        var s2 := SetBlocked(s1, feed, feed in block.stale);
        var head := WalkOneFeed(env, block, s, feed, count, rest);
        var tail := WalkFeedsEffect(env, block, s2, rest, count1, skip);
        WalkStep(block, s, s2, s', feed, rest, count, skip, head, tail);
        AdvancedCompose(block, s, s2, s', head, tail);
        done := head + tail;
        BudgetStep(s.maxActive, count, head, tail, LiveIn(s, [feed]), Reached(block, s2, rest, skip),
                   Reached(block, s, feeds, skip));
      }
    }
  }

  lemma NothingDone(budget: int, count: int, all: set<Bytes>)
    requires all == {} || count >= budget
    ensures Budgeted(budget, count, {}, all)
  {
  }

  lemma BudgetStep(
      budget: int, count: int, head: set<Bytes>, tail: set<Bytes>,
      allHead: set<Bytes>, allTail: set<Bytes>, all: set<Bytes>)
    requires Budgeted(budget, count, head, allHead) && Budgeted(budget, count + |head|, tail, allTail) && head !! tail
    requires head == allHead && tail == allTail ==> head + tail == all
    ensures Budgeted(budget, count, head + tail, all)
  {
    assert |head + tail| == |head| + |tail|;
    if tail == {} {
      assert head + tail == head;
    }
  }

  lemma CompleteEmpty(block: Block, s: State, skip: bool)
    ensures Complete(block, s, s, [], {}, skip) && {} == Reached(block, s, [], skip)
  {
  }

  lemma Unaffordable(s: State, feed: Bytes, rest: seq<Bytes>, count: int)
    requires feed !in rest && count >= s.maxActive
    ensures !Affordable(s, [feed] + rest, count)
  {
    hide Live;
    if Affordable(s, [feed] + rest, count) {
      LiveInSplits(s, feed, rest);
      SomeLive(s, feed);
    }
  }

  lemma SkipStep(block: Block, s: State, s': State, feed: Bytes, rest: seq<Bytes>, count: int, done: set<Bytes>)
    requires feed !in rest && feed in block.stale && feed in s.blocked
    requires done <= Reached(block, s, rest, true)
    requires Affordable(s, rest, count) ==> Complete(block, s, s', rest, done, true)
    ensures Reached(block, s, [feed] + rest, true) == Reached(block, s, rest, true)
    ensures Affordable(s, [feed] + rest, count) ==> Complete(block, s, s', [feed] + rest, done, true)
  {
    hide Live, HasLive;
    LiveInSplits(s, feed, rest);
    assert Reached(block, s, [feed] + rest, true) == Reached(block, s, rest, true);
  }

  lemma WalkStep(
      block: Block, s: State, s2: State, s': State, feed: Bytes, rest: seq<Bytes>, count: int, skip: bool,
      head: set<Bytes>, tail: set<Bytes>)
    requires feed !in rest && !(skip && feed in block.stale && feed in s.blocked)
    requires s2.maxActive == s.maxActive && s2.milestones.Keys == s.milestones.Keys
    requires forall id :: id in s.milestones && s.milestones[id].feed != feed ==> s2.milestones[id] == s.milestones[id]
    requires forall id :: id in s.milestones ==> s2.milestones[id].feed == s.milestones[id].feed
    requires forall g :: g != feed ==> (g in s2.blocked <==> g in s.blocked)
    requires feed in s2.blocked <==> feed in block.stale
    requires head <= LiveIn(s, [feed]) && tail <= Reached(block, s2, rest, skip)
    requires count + |LiveIn(s, [feed])| <= s.maxActive ==> head == LiveIn(s, [feed])
    requires Affordable(s2, rest, count + |head|) ==> Complete(block, s2, s', rest, tail, skip)
    ensures head !! tail && head + tail <= Reached(block, s, [feed] + rest, skip)
    ensures head == LiveIn(s, [feed]) && tail == Reached(block, s2, rest, skip) ==>
              head + tail == Reached(block, s, [feed] + rest, skip)
    ensures Affordable(s, [feed] + rest, count) ==> Complete(block, s, s', [feed] + rest, head + tail, skip)
  {
    hide Live, HasLive, Reached, LiveIn, Complete, Affordable, Skipped;
    SameReach(block, s, s2, rest, feed, skip);
    ReachSplits(block, s, feed, rest, skip);
    if Affordable(s, [feed] + rest, count) {
      AffordableStep(s, s2, feed, rest, count);
      assert head == LiveIn(s, [feed]);
      CompleteStep(block, s, s2, s', feed, rest, skip, tail);
    }
  }

  lemma ReachSplits(block: Block, s: State, feed: Bytes, rest: seq<Bytes>, skip: bool)
    requires feed !in rest && !(skip && feed in block.stale && feed in s.blocked)
    ensures Reached(block, s, [feed] + rest, skip) == LiveIn(s, [feed]) + Reached(block, s, rest, skip)
    ensures LiveIn(s, [feed]) !! Reached(block, s, rest, skip)
  {
    hide Live;
    assert Reached(block, s, [feed] + rest, skip) == LiveIn(s, [feed]) + Reached(block, s, rest, skip);
  }

  lemma AffordableStep(s: State, s2: State, feed: Bytes, rest: seq<Bytes>, count: int)
    requires feed !in rest && Affordable(s, [feed] + rest, count)
    requires s2.maxActive == s.maxActive && s2.milestones.Keys == s.milestones.Keys
    requires forall id :: id in s.milestones && s.milestones[id].feed != feed ==> s2.milestones[id] == s.milestones[id]
    requires forall id :: id in s.milestones ==> s2.milestones[id].feed == s.milestones[id].feed
    ensures count + |LiveIn(s, [feed])| <= s.maxActive
    ensures Affordable(s2, rest, count + |LiveIn(s, [feed])|)
  {
    hide Live, HasLive, LiveIn;
    SameElsewhere(s, s2, rest, feed);
    LiveInSplits(s, feed, rest);
  }

  lemma CompleteStep(
      block: Block, s: State, s2: State, s': State, feed: Bytes, rest: seq<Bytes>, skip: bool, tail: set<Bytes>)
    requires feed !in rest && Complete(block, s2, s', rest, tail, skip)
    requires forall g :: g != feed ==> (g in s2.blocked <==> g in s.blocked)
    requires feed in s2.blocked <==> feed in block.stale
    requires Reached(block, s2, rest, skip) == Reached(block, s, rest, skip)
    requires Reached(block, s, [feed] + rest, skip) == LiveIn(s, [feed]) + Reached(block, s, rest, skip)
    ensures Complete(block, s, s', [feed] + rest, LiveIn(s, [feed]) + tail, skip)
  {
    hide Live, LiveIn, Reached;
  }

  lemma SameReach(block: Block, s: State, s2: State, rest: seq<Bytes>, feed: Bytes, skip: bool)
    requires feed !in rest && s2.milestones.Keys == s.milestones.Keys
    requires forall id :: id in s.milestones && s.milestones[id].feed != feed ==> s2.milestones[id] == s.milestones[id]
    requires forall id :: id in s.milestones ==> s2.milestones[id].feed == s.milestones[id].feed
    requires forall g :: g != feed ==> (g in s2.blocked <==> g in s.blocked)
    ensures Reached(block, s2, rest, skip) == Reached(block, s, rest, skip)
    ensures forall id :: id in Reached(block, s, rest, skip) ==> s.milestones[id].feed != feed
  {
    hide Live;
  }

  lemma {:induction false} DistinctSize(ids: seq<Bytes>)
    requires Distinct(ids)
    ensures |Elements(ids)| == |ids|
  {
    if ids != [] {
      var n := |ids| - 1;
      DistinctSize(ids[..n]);
      assert Elements(ids) == Elements(ids[..n]) + {ids[n]} by {
        assert forall i :: 0 <= i < n ==> ids[..n][i] == ids[i];
      }
    } else {
      assert Elements(ids) == {};
    }
  }

  lemma LiveInSplits(s: State, feed: Bytes, rest: seq<Bytes>)
    requires feed !in rest
    ensures LiveIn(s, [feed] + rest) == LiveIn(s, [feed]) + LiveIn(s, rest)
    ensures |LiveIn(s, [feed] + rest)| == |LiveIn(s, [feed])| + |LiveIn(s, rest)|
  {
    hide Live;
    assert LiveIn(s, [feed] + rest) == LiveIn(s, [feed]) + LiveIn(s, rest);
    assert LiveIn(s, [feed]) !! LiveIn(s, rest);
  }

  lemma SomeLive(s: State, feed: Bytes)
    requires HasLive(s, feed)
    ensures |LiveIn(s, [feed])| >= 1
  {
    hide Live;
    var id :| id in s.milestones && Live(s.milestones[id]) && s.milestones[id].feed == feed;
    assert id in LiveIn(s, [feed]);
  }

  lemma InvariantGivesFeedIds(s: State, feed: Bytes)
    requires Invariant(s) && Fits(s, feed)
    ensures Distinct(FeedIds(s.index, feed))
    ensures forall id :: id in FeedIds(s.index, feed) <==>
                           id in s.milestones && Live(s.milestones[id]) && s.milestones[id].feed == feed
    ensures Elements(FeedIds(s.index, feed)) == LiveIn(s, [feed])
  {
    hide Live, FeedIds, Fits, IndexKey, Indexed, HasLive;
    FeedIdsExact(s, feed);
    var ids := FeedIds(s.index, feed);
    forall id
      ensures id in Elements(ids) <==> id in ids
    {
    }
  }

  /** Advancing the milestones of one feed changes nothing about the others. */
  lemma SameElsewhere(s: State, s': State, feeds: seq<Bytes>, feed: Bytes)
    requires feed !in feeds && s'.milestones.Keys == s.milestones.Keys
    requires forall id :: id in s.milestones && s.milestones[id].feed != feed ==> s'.milestones[id] == s.milestones[id]
    requires forall id :: id in s.milestones ==> s'.milestones[id].feed == s.milestones[id].feed
    ensures LiveIn(s', feeds) == LiveIn(s, feeds)
    ensures forall g :: g in feeds ==> (HasLive(s', g) <==> HasLive(s, g))
  {
    hide Live;
    assert LiveIn(s', feeds) == LiveIn(s, feeds);
    forall g | g in feeds
      ensures HasLive(s', g) <==> HasLive(s, g)
    {
      if HasLive(s, g) {
        var id :| id in s.milestones && Live(s.milestones[id]) && s.milestones[id].feed == g;
        assert Live(s'.milestones[id]) && s'.milestones[id].feed == g;
      }
      if HasLive(s', g) {
        var id :| id in s'.milestones && Live(s'.milestones[id]) && s'.milestones[id].feed == g;
        assert Live(s.milestones[id]) && s.milestones[id].feed == g;
      }
    }
  }

  // ---------- The whole walk ----------

  ghost function LiveIds(s: State): set<Bytes> {
    set id | id in s.milestones && Live(s.milestones[id])
  }

  /**
   The walk of a block advances live milestones whose feed is not skipped, each by one step of its own
   feed: all of them, or as many as the budget allows.  When the budget covers all live milestones, the
   blocked flags of the active feeds become their staleness.
   */
  lemma WalkEffect(env: Environment, block: Block, s: State, skip: bool) returns (done: set<Bytes>)
    requires Invariant(s)
    ensures Advanced(block, s, Walk(env, block, s, skip), done)
    ensures forall id :: id in done ==> id in s.milestones && !Skipped(block, s, s.milestones[id].feed, skip)
    ensures Budgeted(s.maxActive, 0, done, set id | id in LiveIds(s) && !Skipped(block, s, s.milestones[id].feed, skip))
    ensures |LiveIds(s)| <= s.maxActive ==>
              && done == (set id | id in LiveIds(s) && !Skipped(block, s, s.milestones[id].feed, skip))
              && forall feed :: feed in Walk(env, block, s, skip).blocked <==>
                                  if feed in s.active then feed in block.stale else feed in s.blocked
  {
    hide Advance, Advanced, Live, FeedIds, Fits, WalkFeeds, Invariant;
    hide Reached, LiveIn, Affordable, Complete, Skipped, Distinct;
    var feeds := SortedKeys(s.active);
    ActiveFeeds(s, feeds);
    done := WalkFeedsEffect(env, block, s, feeds, 0, skip);
    WalkConclusion(block, s, Walk(env, block, s, skip), feeds, done, skip);
  }

  lemma ActiveFeeds(s: State, feeds: seq<Bytes>)
    requires Invariant(s) && feeds == SortedKeys(s.active)
    ensures Distinct(feeds)
    ensures forall feed :: feed in feeds ==> Fits(s, feed) && HasLive(s, feed)
    ensures forall id :: id in LiveIds(s) ==> s.milestones[id].feed in feeds
  {
    hide Live, Fits, AttemptsExact, Indexed, SortedKeys;
    forall feed | feed in feeds
      ensures Fits(s, feed) && HasLive(s, feed)
    {
      assert feed in s.active;
      var id :| id in s.milestones && Live(s.milestones[id]) && s.milestones[id].feed == feed;
    }
    forall id | id in LiveIds(s)
      ensures s.milestones[id].feed in feeds
    {
      assert HasLive(s, s.milestones[id].feed);
    }
  }

  lemma WalkConclusion(block: Block, s: State, s': State, feeds: seq<Bytes>, done: set<Bytes>, skip: bool)
    requires done <= Reached(block, s, feeds, skip)
    requires Affordable(s, feeds, 0) ==> Complete(block, s, s', feeds, done, skip)
    requires forall feed :: feed in feeds ==> HasLive(s, feed)
    requires forall id :: id in LiveIds(s) ==> s.milestones[id].feed in feeds
    requires forall feed :: feed in feeds <==> feed in s.active
    ensures Reached(block, s, feeds, skip) ==
              (set id | id in LiveIds(s) && !Skipped(block, s, s.milestones[id].feed, skip))
    ensures forall id :: id in done ==> id in s.milestones && !Skipped(block, s, s.milestones[id].feed, skip)
    ensures |LiveIds(s)| <= s.maxActive ==>
              && done == (set id | id in LiveIds(s) && !Skipped(block, s, s.milestones[id].feed, skip))
              && forall feed :: feed in s'.blocked <==>
                   if feed in s.active then feed in block.stale else feed in s.blocked
  {
    hide Live, HasLive, Skipped;
    assert LiveIn(s, feeds) == LiveIds(s);
  }
}
