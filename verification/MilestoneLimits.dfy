/** Which feed IDs, and which creations, the milestone module's promises depend on: exact conditions. */
module MilestoneLimits {
  import opened Order
  import opened MilestoneState
  import opened MilestoneIndexes
  import opened MilestoneWalk
  import opened MilestoneRuns

  lemma RunOne(env: Environment, s: State, op: Op, ops: seq<Op>, skip: bool)
    ensures Run(env, s, [op] + ops, skip) == Run(env, Apply(env, s, op, skip), ops, skip)
  {
    hide Apply;
    assert ([op] + ops)[1..] == ops;
  }

  /** The message would be accepted if its ID is new. */
  predicate Acceptable(env: Environment, msg: CreateMsg) {
    ValidateCreate(env, msg) && msg.creator in env.authorities
  }

  function Created(msg: CreateMsg): Milestone {
    Milestone(msg.id, msg.feed, msg.targetPrice, msg.duration, Pending, msg.pool, msg.payout)
  }

  lemma CreateEffect(env: Environment, s: State, msg: CreateMsg, skip: bool)
    requires Acceptable(env, msg) && msg.id !in s.milestones
    ensures Create(env, s, msg) == (SetMilestone(s, Created(msg)), true)
    ensures Apply(env, s, CreateOp(msg), skip) == SetMilestone(s, Created(msg))
  {
    hide SetMilestone, ValidateCreate;
  }

  // ---------- Feeds that are not apart ----------

  lemma SortedPair(f: Bytes, g: Bytes)
    requires Before(f, g)
    ensures SortedKeys({f, g}) == [f, g]
  {
    hide Before, SortedKeys;
    BeforeIrreflexive(f);
    var r := SortedKeys({f, g});
    assert |r| == 2;
    assert r[0] in r && r[1] in r;
    if r[0] == g {
      BeforeTransitive(f, g, f);
      assert false;
    }
  }

  lemma SortedSingle(f: Bytes)
    ensures SortedKeys({f}) == [f]
  {
    hide SortedKeys;
    var r := SortedKeys({f});
    assert |r| == 1;
    assert r[0] in r;
  }

  lemma {:induction false} PrefixBefore(f: Bytes, g: Bytes)
    requires f <= g && |f| < |g|
    ensures Before(f, g)
    decreases |f|
  {
    if f == [] {
    } else {
      assert f[1..] <= g[1..];
      PrefixBefore(f[1..], g[1..]);
    }
  }

  lemma FeedIdsOfOne(index: set<Bytes>, feed: Bytes, id: Bytes)
    requires index == {IndexKey(feed, id)}
    ensures FeedIds(index, feed) == [id]
  {
    hide IndexKey, IdSet, SortedKeys;
    forall i
      ensures i in IdSet(index, feed) <==> i == id
    {
      IdSetMeaning(index, feed, i);
      SameKeySameId(feed, i, id);
    }
    assert IdSet(index, feed) == {id};
    SortedSingle(id);
  }

  lemma SameKeySameId(feed: Bytes, i: Bytes, j: Bytes)
    ensures IndexKey(feed, i) == IndexKey(feed, j) <==> i == j
  {
    assert IndexKey(feed, i)[|feed| + 1..] == i && IndexKey(feed, j)[|feed| + 1..] == j;
  }

  lemma FeedIdsOfNone(feed: Bytes)
    ensures FeedIds({}, feed) == []
  {
    assert IdSet({}, feed) == {};
  }

  /** One fresh price, for one feed only. */
  function PriceBlock(feed: Bytes): Block {
    Block({}, map[feed := 1], {})
  }

  function Message(creator: string, id: Bytes, feed: Bytes): CreateMsg {
    CreateMsg(creator, id, feed, 1, 1, creator, 1)
  }

  /** Two creations on feeds that are not apart, with IDs that share a key. */
  lemma TwoCreated(env: Environment, creator: string, maxActive: int, f: Bytes, g: Bytes, x: Bytes) returns (s: State)
    requires FeedPrefix(f) <= FeedPrefix(g) && f != g
    ensures var (a, b) := (Created(Message(creator, Shadow(f, g, x), f)), Created(Message(creator, x, g)));
            && a.id != b.id
            && s == SetMilestone(SetMilestone(Empty(maxActive), a), b)
            && s.milestones == map[a.id := a, b.id := b]
            && s.index == {IndexKey(f, a.id)} && s.active == {f, g}
            && s.blocked == {} && s.maxActive == maxActive && s.attempts == [] && s.escrow == 0
  {
    hide IndexKey;
    SharedKey(f, g, x);
    LongerHasColon(f, g);
    var a, b := Created(Message(creator, Shadow(f, g, x), f)), Created(Message(creator, x, g));
    s := SetMilestone(SetMilestone(Empty(maxActive), a), b);
  }

  lemma FirstFeed(env: Environment, block: Block, s: State, feed: Bytes, rest: seq<Bytes>, count: int, skip: bool)
    requires count < s.maxActive && feed !in block.stale
    ensures var (s1, count1) := WalkIds(env, block, s, feed, FeedIds(s.index, feed), count);
            WalkFeeds(env, block, s, [feed] + rest, count, skip) ==
            WalkFeeds(env, block, SetBlocked(s1, feed, false), rest, count1, skip)
  {
    hide WalkIds, FeedIds;
    assert ([feed] + rest)[0] == feed && ([feed] + rest)[1..] == rest;
  }

  lemma NothingToWalk(env: Environment, block: Block, s: State, feed: Bytes, count: int, skip: bool)
    requires FeedIds(s.index, feed) == []
    ensures var s' := WalkFeeds(env, block, s, [feed], count, skip); s' == s.(blocked := s'.blocked)
  {
    hide FeedIds;
    assert [feed][1..] == [];
  }

  /** Two pending milestones, of feeds that are not apart, sharing the one index key. */
  predicate Colliding(s: State, a: Milestone, b: Milestone) {
    && a.feed != b.feed && FeedPrefix(a.feed) <= FeedPrefix(b.feed)
    && a.id == Shadow(a.feed, b.feed, b.id) && a.id != b.id
    && a.phase == Pending && a.targetPrice == 1 && a.payout == 1 && b.phase == Pending
    && s.milestones == map[a.id := a, b.id := b] && s.index == {IndexKey(a.feed, a.id)}
    && s.active == {a.feed, b.feed}
  }

  lemma FinishFirst(env: Environment, s: State, a: Milestone, b: Milestone) returns (t: State)
    requires Colliding(s, a, b) && s.maxActive >= 1
    ensures WalkIds(env, PriceBlock(a.feed), s, a.feed, FeedIds(s.index, a.feed), 0) == (t, 1)
    ensures t.index == {} && b.id in t.milestones && t.milestones[b.id] == b && t.maxActive == s.maxActive
    ensures |t.attempts| == |s.attempts| + 1 && t.attempts[|s.attempts|].outcome != Panicked
  {
    hide IndexKey, FeedIds, SortedKeys, Shadow;
    var block := PriceBlock(a.feed);
    var a' := a.(phase := Achieved);
    FeedIdsOfOne(s.index, a.feed, a.id);
    t := ProcessOne(env, block, s, a.feed, a);
    assert t == TriggerPayout(env, block, SetMilestone(s, a'), a');
    assert [a.id][1..] == [];
  }

  lemma ActivePair(s: State, a: Milestone, b: Milestone)
    requires Colliding(s, a, b)
    ensures SortedKeys(s.active) == [a.feed, b.feed]
  {
    hide IndexKey, SortedKeys, Shadow;
    var (f, g) := (a.feed, b.feed);
    LongerHasColon(f, g);
    assert f <= g by {
      assert f == FeedPrefix(g)[..|f|] == g[..|f|];
    }
    PrefixBefore(f, g);
    SortedPair(f, g);
  }

  /** The block that finishes the milestone of the shorter feed leaves the other one live and not indexed. */
  lemma BlockBreaksIndex(env: Environment, s: State, a: Milestone, b: Milestone, skip: bool)
    requires Colliding(s, a, b) && s.maxActive >= 1
    ensures var (s', ok) := EndBlock(env, PriceBlock(a.feed), s, skip); ok && !IndexesExact(s')
  {
    hide FeedIds, IndexesExact, SortedKeys, WalkFeeds, WalkIds, Shadow, Colliding;
    var block := PriceBlock(a.feed);
    var t := FinishFirst(env, s, a, b);
    var t1 := SetBlocked(t, a.feed, false);
    ActivePair(s, a, b);
    assert [a.feed, b.feed] == [a.feed] + [b.feed];
    FirstFeed(env, block, s, a.feed, [b.feed], 0, skip);
    FeedIdsOfNone(b.feed);
    NothingToWalk(env, block, t1, b.feed, 1, skip);
    var u := Walk(env, block, s, skip);
    assert u == WalkFeeds(env, block, t1, [b.feed], 1, skip);
    StillPending(s, a, b);
    LiveNotIndexed(u, b);
  }

  lemma StillPending(s: State, a: Milestone, b: Milestone)
    requires Colliding(s, a, b)
    ensures Live(b)
  {
  }

  lemma LiveNotIndexed(s: State, b: Milestone)
    requires b.id in s.milestones && s.milestones[b.id] == b && Live(b) && IndexKey(b.feed, b.id) !in s.index
    ensures !IndexesExact(s)
  {
    hide IndexKey;
    assert Indexed(s, IndexKey(b.feed, b.id));
  }

  /** For any two creatable feeds that are not apart, some run leaves a live milestone that is not indexed. */
  lemma NotApartBreaks(
      env: Environment, creator: string, maxActive: int, f: Bytes, g: Bytes, skip: bool) returns (ops: seq<Op>)
    requires f != g && FeedPrefix(f) <= FeedPrefix(g) && f != []
    requires creator != "" && creator in env.authorities && env.account(creator).Some? && maxActive >= 1
    ensures forall i :: 0 <= i < |ops| && ops[i].CreateOp? ==> ops[i].msg.feed in {f, g}
    ensures !IndexesExact(Run(env, Empty(maxActive), ops, skip))
  {
    hide IndexKey, FeedIds, IndexesExact, SetMilestone, Shadow, EndBlock;
    var s := TwoCreated(env, creator, maxActive, f, g, [0]);
    var first, second := Message(creator, Shadow(f, g, [0]), f), Message(creator, [0], g);
    ShadowNotEmpty(f, g, [0]);
    var s0 := Empty(maxActive);
    CreateEffect(env, s0, first, skip);
    var s1 := SetMilestone(s0, Created(first));
    assert s1.milestones == map[first.id := Created(first)] by {
      OnlyOne(maxActive, Created(first));
    }
    CreateEffect(env, s1, second, skip);
    BlockBreaksIndex(env, s, Created(first), Created(second), skip);
    var block := BlockOp(PriceBlock(f));
    ops := [CreateOp(first), CreateOp(second), block];
    RunOne(env, s0, CreateOp(first), [CreateOp(second), block], skip);
    RunOne(env, s1, CreateOp(second), [block], skip);
    RunOne(env, s, block, [], skip);
    assert ops == [CreateOp(first)] + [CreateOp(second), block];
    assert [CreateOp(second), block] == [CreateOp(second)] + [block];
    assert [block] == [block] + [];
  }

  lemma ShadowNotEmpty(f: Bytes, g: Bytes, x: Bytes)
    requires FeedPrefix(f) <= FeedPrefix(g) && f != []
    ensures x != [] ==> Shadow(f, g, x) != []
    ensures g != []
  {
  }

  lemma OnlyOne(maxActive: int, m: Milestone)
    ensures SetMilestone(Empty(maxActive), m).milestones == map[m.id := m]
  {
    hide FeedIds, IndexKey;
  }

  /**
   The indexes stay exact over every run that creates milestones on the given feeds only, if and only if
   no feed of them followed by a colon begins another.
   */
  lemma IndexesStayExactIff(env: Environment, creator: string, maxActive: int, skip: bool, feeds: iset<Bytes>)
    requires creator != "" && creator in env.authorities && env.account(creator).Some? && maxActive >= 1
    requires [] !in feeds
    ensures (forall ops :: CreatesOn(ops, feeds) ==> IndexesExact(Run(env, Empty(maxActive), ops, skip))) <==>
              PrefixFree(feeds)
  {
    hide IndexesExact, Run, FeedPrefix;
    if PrefixFree(feeds) {
      forall ops | CreatesOn(ops, feeds)
        ensures IndexesExact(Run(env, Empty(maxActive), ops, skip))
      {
        EmptyInvariant(maxActive);
        RunKeeps(env, Empty(maxActive), ops, skip, feeds);
      }
    } else {
      var f, g :| f in feeds && g in feeds && !Apart(f, g) && FeedPrefix(f) <= FeedPrefix(g);
      var ops := NotApartBreaks(env, creator, maxActive, f, g, skip);
      assert CreatesOn(ops, feeds);
    }
  }

  // ---------- Creations on blocked feeds ----------

  /**
   After a creation, skipping and walking agree on the next block if and only if the new milestone's feed
   is not both blocked and still stale.
   */
  lemma CreationShowsIff(env: Environment, block: Block, s: State, msg: CreateMsg)
    requires Invariant(s) && BlockedMarked(s) && Fits(s, msg.feed) && Create(env, s, msg).1 &&
               |LiveIds(s)| < s.maxActive
    ensures var s' := Create(env, s, msg).0;
            Walk(env, block, s', true) == Walk(env, block, s', false) <==>
              !(msg.feed in s.blocked && msg.feed in block.stale)
  {
    hide Invariant, Fits, SetMilestone, Walk, ValidateCreate;
    var s' := Create(env, s, msg).0;
    RewriteKeepsInvariant(s, Created(msg));
    assert LiveIds(s') == LiveIds(s) + {msg.id};
    SkipIsExact(env, block, s');
    var m := s'.milestones[msg.id];
    assert m == Created(msg);
  }

  /**
   From the empty state: a creation, a block with the feed stale, a second creation on that feed and
   another such block end differently with the skip and without.
   */
  lemma SkipShows(env: Environment, maxActive: int, first: CreateMsg, second: CreateMsg, block: Block)
    requires Acceptable(env, first) && Acceptable(env, second) && first.feed == second.feed && first.id != second.id
    requires maxActive >= 2 && first.feed in block.stale
    ensures var ops := [CreateOp(first), BlockOp(block), CreateOp(second), BlockOp(block)];
            Run(env, Empty(maxActive), ops, true) != Run(env, Empty(maxActive), ops, false)
  {
    hide Invariant, SetMilestone, Walk, ValidateCreate, Fits, EndBlock, Acceptable, BlockedMarked;
    var s0 := Empty(maxActive);
    EmptyInvariant(maxActive);
    NothingFits(maxActive, first.feed);
    CreateEffect(env, s0, first, true);
    var s1 := SetMilestone(s0, Created(first));
    RewriteKeepsInvariant(s0, Created(first));
    assert s1.milestones == map[first.id := Created(first)];
    NothingBlocked(s1);
    assert LiveIds(s1) == {first.id};
    var s2 := StaleBlock(env, block, s1, first.feed);
    var s3 := SetMilestone(s2, Created(second));
    SameFeedFits(s2, first.feed);
    CreateEffect(env, s2, second, true);
    CreationShowsIff(env, block, s2, second);
    RewriteKeepsInvariant(s2, Created(second));
    NoPayout(env, block, s3, true);
    NoPayout(env, block, s3, false);
    RunFour(env, s0, CreateOp(first), BlockOp(block), CreateOp(second), BlockOp(block), true);
    RunFour(env, s0, CreateOp(first), BlockOp(block), CreateOp(second), BlockOp(block), false);
    CreateEffect(env, s0, first, false);
    CreateEffect(env, s2, second, false);
  }

  lemma RunFour(env: Environment, s: State, a: Op, b: Op, c: Op, d: Op, skip: bool)
    ensures Run(env, s, [a, b, c, d], skip)
         == Apply(env, Apply(env, Apply(env, Apply(env, s, a, skip), b, skip), c, skip), d, skip)
  {
    hide Apply;
    var s1 := Apply(env, s, a, skip);
    var s2 := Apply(env, s1, b, skip);
    var s3 := Apply(env, s2, c, skip);
    RunOne(env, s, a, [b, c, d], skip);
    RunOne(env, s1, b, [c, d], skip);
    RunOne(env, s2, c, [d], skip);
    RunOne(env, s3, d, [], skip);
    assert [a, b, c, d] == [a] + [b, c, d] && [b, c, d] == [b] + [c, d] && [c, d] == [c] + [d] && [d] == [d] + [];
  }

  lemma NothingFits(maxActive: int, feed: Bytes)
    ensures Fits(Empty(maxActive), feed)
  {
  }

  lemma NothingBlocked(s: State)
    requires s.blocked == {}
    ensures BlockedMarked(s)
  {
  }

  lemma SameFeedFits(s: State, feed: Bytes)
    requires forall id :: id in s.milestones ==> s.milestones[id].feed == feed
    ensures Fits(s, feed)
  {
  }

  /** A block in which every feed with a milestone is stale pays nothing out and is kept. */
  lemma NoPayout(env: Environment, block: Block, s: State, skip: bool)
    requires Invariant(s) && forall id :: id in s.milestones ==> s.milestones[id].feed in block.stale
    ensures EndBlock(env, block, s, skip) == (Walk(env, block, s, skip), true)
  {
    hide Invariant, Walk, Funds;
    var done := WalkEffect(env, block, s, skip);
    var s' := Walk(env, block, s, skip);
    assert NewIds(s, s') == {};
    assert forall i :: |s.attempts| <= i < |s'.attempts| ==> s'.attempts[i].id in NewIds(s, s');
  }

  /** The first stale block of a feed: both variants agree, and block the feed. */
  lemma StaleBlock(env: Environment, block: Block, s: State, feed: Bytes) returns (s': State)
    requires Invariant(s) && s.blocked == {} && feed in block.stale && |LiveIds(s)| == 1 && s.maxActive >= 2
    requires forall id :: id in s.milestones ==> id in LiveIds(s) && s.milestones[id].feed == feed
    ensures forall skip :: EndBlock(env, block, s, skip) == (s', true)
    ensures Invariant(s') && BlockedMarked(s') && feed in s'.blocked && s'.milestones.Keys == s.milestones.Keys
    ensures |LiveIds(s')| <= 1 && s'.maxActive == s.maxActive
    ensures forall id :: id in s'.milestones ==> s'.milestones[id].feed == feed
  {
    hide Invariant, Walk, EndBlock, Advance, Funds, NewIds;
    NothingBlocked(s);
    MarkedIsSafe(block, s);
    SkipIsExact(env, block, s);
    BlockKeepsMarked(env, block, s);
    NoPayout(env, block, s, true);
    NoPayout(env, block, s, false);
    s' := Walk(env, block, s, true);
    var done := WalkEffect(env, block, s, true);
    OthersUntouched(block, s, s', done);
    var id: Bytes :| id in LiveIds(s);
    ActiveIfLive(s, id);
    forall i | i in LiveIds(s')
      ensures i in LiveIds(s)
    {
    }
    SmallerIds(LiveIds(s'), LiveIds(s));
  }

  lemma SmallerIds(a: set<Bytes>, b: set<Bytes>)
    requires a <= b
    ensures |a| <= |b|
  {
    assert b == a + (b - a);
  }
}
