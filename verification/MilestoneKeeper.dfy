/** The milestone keeper: records changed in place, one key at a time. */
module MilestoneKeeper {
  import opened Order
  import opened Prelude
  import opened MilestoneState

  class Keeper {
    const env: Environment
    var milestones: map<Bytes, Milestone>
    var active: set<Bytes>
    var index: set<Bytes>
    var blocked: set<Bytes>
    var maxActive: int
    var escrow: int
    var attempts: seq<Attempt>

    constructor (env: Environment, maxActive: int)
      ensures this.env == env && Current() == Empty(maxActive)
    {
      this.env := env;
      this.maxActive := maxActive;
      milestones, active, index, blocked := map[], {}, {}, {};
      escrow, attempts := 0, [];
    }

    function Current(): State
      reads this
    {
      State(milestones, active, index, blocked, maxActive, escrow, attempts)
    }

    method SetMilestone(m: Milestone)
      modifies this`milestones, this`active, this`index
      ensures Current() == MilestoneState.SetMilestone(old(Current()), m)
    {
      hide FeedIds, IndexKey;
      milestones := milestones[m.id := m];
      if m.phase == Pending || m.phase == StaleBlocked {
        active := active + {m.feed};
        index := index + {IndexKey(m.feed, m.id)};
      } else {
        index := index - {IndexKey(m.feed, m.id)};
        var hasRemaining := FeedIds(index, m.feed) != [];
        if !hasRemaining {
          active := active - {m.feed};
        }
      }
    }

    method TriggerVestingPayout(block: Block, m: Milestone)
      modifies this`escrow, this`attempts
      ensures Current() == TriggerPayout(env, block, old(Current()), m)
    {
      var refused := m.id in block.failing;
      if env.account(m.pool).None? {
        attempts := attempts + [Attempt(m.id, escrow, refused, BadAddress)];
        return;
      }
      if !env.hasBank {
        attempts := attempts + [Attempt(m.id, escrow, refused, NoBank)];
        return;
      }
      if m.payout == 0 {
        attempts := attempts + [Attempt(m.id, escrow, refused, ZeroAmount)];
        return;
      }
      if m.payout > MAX_INT64 {
        attempts := attempts + [Attempt(m.id, escrow, refused, Panicked)];
        return;
      }
      if refused || escrow < m.payout {
        attempts := attempts + [Attempt(m.id, escrow, refused, SendFailed)];
        return;
      }
      if env.account(m.pool) == Some(env.escrowAccount) {
        attempts := attempts + [Attempt(m.id, escrow, refused, KeptInEscrow(m.payout))];
        return;
      }
      attempts := attempts + [Attempt(m.id, escrow, refused, Paid(m.payout))];
      escrow := escrow - m.payout;
    }

    /** The loop body for a live milestone of the feed. */
    method ProcessMilestone(block: Block, feed: Bytes, stale: bool, milestone: Milestone)
      requires stale == (feed in block.stale)
      requires Live(milestone)
      modifies this`milestones, this`active, this`index, this`escrow, this`attempts
      ensures Current() == ProcessOne(env, block, old(Current()), feed, milestone)
    {
      hide MilestoneState.SetMilestone, TriggerPayout;
      var m := milestone;
      if stale {
        if m.phase == Pending {
          m := m.(phase := StaleBlocked);
          SetMilestone(m);
        }
      } else {
        var price := PriceOf(block, feed);
        if price.Some? {
          if m.phase == StaleBlocked {
            if price.value >= m.targetPrice {
              m := m.(phase := Achieved);
              SetMilestone(m);
              TriggerVestingPayout(block, m);
            } else {
              m := m.(phase := Pending);
              SetMilestone(m);
            }
          } else if m.phase == Pending {
            if price.value >= m.targetPrice {
              m := m.(phase := Achieved);
              SetMilestone(m);
              TriggerVestingPayout(block, m);
            } else {
              m := m.(remaining := Decrement(m.remaining));
              if m.remaining <= 0 {
                m := m.(phase := Expired);
              }
              SetMilestone(m);
            }
          }
        }
      }
    }

    /** The inner loop: the milestones of one feed, within the budget. */
    method ProcessFeed(block: Block, feed: Bytes, ids: seq<Bytes>, startCount: int) returns (processedCount: int)
      modifies this`milestones, this`active, this`index, this`escrow, this`attempts
      ensures (Current(), processedCount) == WalkIds(env, block, old(Current()), feed, ids, startCount)
    {
      hide ProcessOne;
      processedCount := startCount;
      var i := 0;
      while i < |ids|
        invariant 0 <= i <= |ids|
        invariant blocked == old(blocked) && maxActive == old(maxActive)
        invariant WalkIds(env, block, Current(), feed, ids[i..], processedCount)
               == WalkIds(env, block, old(Current()), feed, ids, startCount)
      {
        assert ids[i..][0] == ids[i] && ids[i..][1..] == ids[i + 1..];
        if processedCount >= maxActive {
          break;
        }
        if ids[i] !in milestones {
          i := i + 1;
          continue;
        }
        var m := milestones[ids[i]];
        if m.phase == Achieved || m.phase == Expired {
          i := i + 1;
          continue;
        }
        processedCount := processedCount + 1;
        ProcessMilestone(block, feed, feed in block.stale, m);
        i := i + 1;
      }
    }

    /** The outer loop, over a snapshot of the active feeds. */
    method ProcessFeeds(block: Block, feeds: seq<Bytes>)
      modifies this
      ensures Current() == WalkFeeds(env, block, old(Current()), feeds, 0, true)
    {
      hide WalkIds, FeedIds;
      var processedCount := 0;
      var i := 0;
      assert feeds[0..] == feeds;
      while i < |feeds|
        invariant 0 <= i <= |feeds|
        invariant WalkFeeds(env, block, Current(), feeds[i..], processedCount, true)
               == WalkFeeds(env, block, old(Current()), feeds, 0, true)
      {
        var feed := feeds[i];
        assert feeds[i..][0] == feed && feeds[i..][1..] == feeds[i + 1..];
        if processedCount >= maxActive {
          break;
        }
        var stale := feed in block.stale;
        var isBlocked := feed in blocked;
        if stale && isBlocked {
          i := i + 1;
          continue;
        }
        ghost var before := Current();
        var ids := FeedIds(index, feed);
        ghost var walked := WalkIds(env, block, before, feed, ids, processedCount);
        processedCount := ProcessFeed(block, feed, ids, processedCount);
        assert (Current(), processedCount) == walked;
        if stale {
          blocked := blocked + {feed};
        } else {
          blocked := blocked - {feed};
        }
        assert Current() == SetBlocked(walked.0, feed, stale);
        i := i + 1;
      }
    }

    /** EndBlocker; false when a panic stopped the node and the block was discarded. */
    method EndBlocker(block: Block) returns (ok: bool)
      modifies this
      ensures (Current(), ok) == EndBlock(env, block, old(Current()), true)
    {
      hide WalkFeeds, PanickedSince, SortedKeys;
      var committed := Current();
      ProcessFeeds(block, SortedKeys(active));
      ok := !PanickedSince(committed, Current());
      if !ok {
        milestones, active, index, blocked := committed.milestones, committed.active, committed.index,
          committed.blocked;
        maxActive, escrow, attempts := committed.maxActive, committed.escrow, committed.attempts;
      }
    }

    method CreateMilestone(msg: CreateMsg) returns (ok: bool)
      modifies this
      ensures (Current(), ok) == Create(env, old(Current()), msg)
    {
      hide MilestoneState.SetMilestone, ValidateCreate;
      if !ValidateCreate(env, msg) {
        return false;
      }
      if msg.creator !in env.authorities {
        return false;
      }
      if msg.id in milestones {
        return false;
      }
      SetMilestone(Milestone(msg.id, msg.feed, msg.targetPrice, msg.duration, Pending, msg.pool, msg.payout));
      ok := true;
    }
  }
}
