/** The two secondary indexes of the milestone module are functions of the milestones. */
module MilestoneIndexes {
  import opened Order
  import opened MilestoneState

  /** Neither feed, followed by a colon, is the beginning of the other. */
  predicate Apart(f: Bytes, g: Bytes) {
    f == g || (!(FeedPrefix(f) <= FeedPrefix(g)) && !(FeedPrefix(g) <= FeedPrefix(f)))
  }

  /** The feed may join those of the stored milestones: what a caller would check before a creation. */
  ghost predicate Fits(s: State, feed: Bytes) {
    forall id :: id in s.milestones ==> Apart(s.milestones[id].feed, feed)
  }

  ghost predicate FeedsApart(s: State) {
    forall id :: id in s.milestones ==> Fits(s, s.milestones[id].feed)
  }

  /** Some live milestone has this index key. */
  ghost predicate Indexed(s: State, key: Bytes) {
    exists id :: id in s.milestones && Live(s.milestones[id]) && key == IndexKey(s.milestones[id].feed, id)
  }

  /** Some live milestone waits for this feed. */
  ghost predicate HasLive(s: State, feed: Bytes) {
    exists id :: id in s.milestones && Live(s.milestones[id]) && s.milestones[id].feed == feed
  }

  /** Milestones are stored under their ID; both indexes describe exactly the live milestones. */
  ghost predicate IndexesExact(s: State) {
    && (forall id :: id in s.milestones ==> s.milestones[id].id == id)
    && (forall key :: key in s.index <==> Indexed(s, key))
    && (forall feed :: feed in s.active <==> HasLive(s, feed))
  }

  /** Two different feeds can share an index key if and only if they are not apart. */
  lemma KeysCollideIff(f: Bytes, g: Bytes)
    requires f != g
    ensures (exists i, j :: IndexKey(f, i) == IndexKey(g, j)) <==> !Apart(f, g)
  {
    if FeedPrefix(f) <= FeedPrefix(g) {
      SharedKey(f, g, []);
    } else if FeedPrefix(g) <= FeedPrefix(f) {
      SharedKey(g, f, []);
    } else {
      forall i, j
        ensures IndexKey(f, i) != IndexKey(g, j)
      {
        if IndexKey(f, i) == IndexKey(g, j) {
          PrefixUnique(f, g, i, j);
        }
      }
    }
  }

  /** The ID that, below the shorter feed, has the key of ID x below the longer one. */
  function Shadow(f: Bytes, g: Bytes, x: Bytes): Bytes
    requires FeedPrefix(f) <= FeedPrefix(g)
  {
    FeedPrefix(g)[|f| + 1..] + x
  }

  lemma SharedKey(f: Bytes, g: Bytes, x: Bytes)
    requires FeedPrefix(f) <= FeedPrefix(g)
    ensures IndexKey(f, Shadow(f, g, x)) == IndexKey(g, x)
  {
    assert FeedPrefix(g) == FeedPrefix(f) + FeedPrefix(g)[|f| + 1..];
    assert FeedPrefix(f) + (FeedPrefix(g)[|f| + 1..] + x) == FeedPrefix(f) + FeedPrefix(g)[|f| + 1..] + x;
  }

  lemma PrefixesNest(p: Bytes, q: Bytes, x: Bytes)
    requires p <= x && q <= x
    ensures p <= q || q <= p
  {
    assert p == x[..|p|] && q == x[..|q|];
  }

  lemma PrefixUnique(f: Bytes, g: Bytes, i: Bytes, j: Bytes)
    requires Apart(f, g) && IndexKey(f, i) == IndexKey(g, j)
    ensures f == g && i == j
  {
    var x, y := IndexKey(f, i), IndexKey(g, j);
    PrefixesNest(FeedPrefix(f), FeedPrefix(g), x);
    assert x[|f| + 1..] == i && y[|g| + 1..] == j;
  }

  lemma LongerHasColon(f: Bytes, g: Bytes)
    ensures FeedPrefix(f) <= FeedPrefix(g) ==> f == g || (|f| < |g| && COLON in g)
  {
    if FeedPrefix(f) <= FeedPrefix(g) {
      if |f| == |g| {
        assert FeedPrefix(f)[..|f|] == f && FeedPrefix(g)[..|g|] == g;
      } else {
        assert FeedPrefix(f)[|f|] == FeedPrefix(g)[|f|] == g[|f|];
      }
    }
  }

  /** Feeds without a colon are apart. */
  lemma ColonFreeApart(f: Bytes, g: Bytes)
    requires COLON !in f && COLON !in g
    ensures Apart(f, g)
  {
    LongerHasColon(f, g);
    LongerHasColon(g, f);
  }

  /** Which feeds fit depends only on the feeds of the stored milestones. */
  lemma SameFeeds(s: State, t: State)
    requires t.milestones.Keys == s.milestones.Keys
    requires forall id :: id in s.milestones ==> t.milestones[id].feed == s.milestones[id].feed
    ensures forall feed :: Fits(t, feed) <==> Fits(s, feed)
    ensures FeedsApart(t) <==> FeedsApart(s)
  {
    hide Apart;
    forall feed
      ensures Fits(t, feed) <==> Fits(s, feed)
    {
    }
  }

  lemma WriteKeepsApart(s: State, m: Milestone, t: State)
    requires FeedsApart(s) && Fits(s, m.feed) && t.milestones == s.milestones[m.id := m]
    ensures FeedsApart(t) && Fits(t, m.feed)
  {
    forall id | id in t.milestones
      ensures Fits(t, t.milestones[id].feed)
    {
      if id != m.id {
        assert Fits(s, s.milestones[id].feed);
      }
    }
  }

  lemma IdSetMeaning(index: set<Bytes>, feed: Bytes, id: Bytes)
    ensures id in IdSet(index, feed) <==> IndexKey(feed, id) in index
  {
    var key := IndexKey(feed, id);
    assert FeedPrefix(feed) <= key && key[|feed| + 1..] == id;
    if id in IdSet(index, feed) {
      var k :| k in index && FeedPrefix(feed) <= k && k[|feed| + 1..] == id;
      assert k == FeedPrefix(feed) + k[|feed| + 1..];
    }
  }

  /** The prefix scan finds exactly the live milestones of the feed. */
  lemma FeedIdsExact(s: State, feed: Bytes)
    requires IndexesExact(s) && Fits(s, feed)
    ensures forall id :: id in FeedIds(s.index, feed) <==>
                           id in s.milestones && Live(s.milestones[id]) && s.milestones[id].feed == feed
    ensures forall i, j :: 0 <= i < j < |FeedIds(s.index, feed)| ==>
              FeedIds(s.index, feed)[i] != FeedIds(s.index, feed)[j]
  {
    forall id
      ensures id in FeedIds(s.index, feed) <==>
                id in s.milestones && Live(s.milestones[id]) && s.milestones[id].feed == feed
    {
      IdSetMeaning(s.index, feed, id);
      if IndexKey(feed, id) in s.index {
        var other :| other in s.milestones && Live(s.milestones[other]) &&
                       IndexKey(feed, id) == IndexKey(s.milestones[other].feed, other);
        PrefixUnique(feed, s.milestones[other].feed, id, other);
      }
    }
  }

  /** Writing a milestone, new or of unchanged feed, keeps both indexes exact. */
  lemma SetMilestoneKeepsIndexes(s: State, m: Milestone)
    requires IndexesExact(s) && Fits(s, m.feed)
    requires m.id in s.milestones ==> s.milestones[m.id].feed == m.feed
    ensures IndexesExact(SetMilestone(s, m))
    ensures SetMilestone(s, m).milestones == s.milestones[m.id := m]
  {
    hide FeedIds, Apart, IndexKey;
    var s' := SetMilestone(s, m);
    var key := IndexKey(m.feed, m.id);
    forall k
      ensures k in s'.index <==> Indexed(s', k)
    {
      IndexedAfter(s, m, k);
    }
    assert Fits(s', m.feed) by {
      FitsItself(s, m);
    }
    FeedEmptyIff(s, s', m);
    forall feed
      ensures feed in s'.active <==> HasLive(s', feed)
    {
      if feed != m.feed {
        HasLiveElsewhere(s, m, feed);
      } else if Live(m) {
        assert s'.milestones[m.id] == m;
      }
    }
  }

  lemma FitsItself(s: State, m: Milestone)
    requires Fits(s, m.feed)
    ensures Fits(SetMilestone(s, m), m.feed)
  {
    hide FeedIds, IndexKey;
  }

  lemma IndexedAfter(s: State, m: Milestone, k: Bytes)
    requires IndexesExact(s) && Fits(s, m.feed)
    requires m.id in s.milestones ==> s.milestones[m.id].feed == m.feed
    ensures var s' := SetMilestone(s, m); k in s'.index <==> Indexed(s', k)
  {
    hide FeedIds, IndexKey;
    var s' := SetMilestone(s, m);
    var key := IndexKey(m.feed, m.id);
    if k == key {
      if Live(m) {
        assert s'.milestones[m.id] == m;
      } else if Indexed(s', k) {
        var id :| id in s'.milestones && Live(s'.milestones[id]) && k == IndexKey(s'.milestones[id].feed, id);
        PrefixUnique(m.feed, s'.milestones[id].feed, m.id, id);
      }
    } else {
      if Indexed(s, k) {
        var id :| id in s.milestones && Live(s.milestones[id]) && k == IndexKey(s.milestones[id].feed, id);
        assert id != m.id;
        assert s'.milestones[id] == s.milestones[id];
      }
      if Indexed(s', k) {
        var id :| id in s'.milestones && Live(s'.milestones[id]) && k == IndexKey(s'.milestones[id].feed, id);
        assert id != m.id;
        assert s'.milestones[id] == s.milestones[id];
      }
    }
  }

  /** After a milestone is finished, the scan of its feed is empty exactly when no live one remains. */
  lemma FeedEmptyIff(s: State, s': State, m: Milestone)
    requires s' == SetMilestone(s, m) && Fits(s', m.feed)
    requires forall k :: k in s'.index <==> Indexed(s', k)
    ensures FeedIds(s'.index, m.feed) == [] <==> !HasLive(s', m.feed)
  {
    hide IndexKey, Live;
    var ids := FeedIds(s'.index, m.feed);
    if ids != [] {
      assert ids[0] in ids;
      IdSetMeaning(s'.index, m.feed, ids[0]);
      var id :| id in s'.milestones && Live(s'.milestones[id]) &&
                  IndexKey(m.feed, ids[0]) == IndexKey(s'.milestones[id].feed, id);
      PrefixUnique(m.feed, s'.milestones[id].feed, ids[0], id);
    }
    if HasLive(s', m.feed) {
      var id :| id in s'.milestones && Live(s'.milestones[id]) && s'.milestones[id].feed == m.feed;
      assert Indexed(s', IndexKey(m.feed, id));
      IdSetMeaning(s'.index, m.feed, id);
      assert id in ids;
    }
  }

  lemma HasLiveElsewhere(s: State, m: Milestone, feed: Bytes)
    requires feed != m.feed
    requires m.id in s.milestones ==> s.milestones[m.id].feed == m.feed
    ensures HasLive(SetMilestone(s, m), feed) <==> HasLive(s, feed)
  {
    hide FeedIds, IndexKey;
    var s' := SetMilestone(s, m);
    if HasLive(s, feed) {
      var id :| id in s.milestones && Live(s.milestones[id]) && s.milestones[id].feed == feed;
      assert s'.milestones[id] == s.milestones[id];
    }
    if HasLive(s', feed) {
      var id :| id in s'.milestones && Live(s'.milestones[id]) && s'.milestones[id].feed == feed;
      assert s'.milestones[id] == s.milestones[id];
    }
  }

  /** The indexes are determined by the milestones. */
  lemma IndexesDetermined(s: State, t: State)
    requires IndexesExact(s) && IndexesExact(t) && s.milestones == t.milestones
    ensures s.index == t.index && s.active == t.active
  {
    hide IndexKey;
    forall key
      ensures key in s.index <==> key in t.index
    {
      assert Indexed(s, key) <==> Indexed(t, key);
    }
    forall feed
      ensures feed in s.active <==> feed in t.active
    {
      assert HasLive(s, feed) <==> HasLive(t, feed);
    }
  }

  /**
   For any two feeds that are not apart, whatever the IDs end in: a live milestone of the longer feed is
   no longer indexed once the milestone of the shorter feed with the same key is finished.
   */
  lemma SharedKeyBreaksIndex(s: State, a: Milestone, b: Milestone)
    requires a.feed != b.feed && FeedPrefix(a.feed) <= FeedPrefix(b.feed) && a.id == Shadow(a.feed, b.feed, b.id)
    requires Live(b) && !Live(a) && b.id in s.milestones && s.milestones[b.id] == b
    ensures var s' := SetMilestone(s, a);
            && s'.milestones[b.id] == b && IndexKey(b.feed, b.id) !in s'.index && !IndexesExact(s')
  {
    hide FeedIds, IndexKey;
    SharedKey(a.feed, b.feed, b.id);
    var s' := SetMilestone(s, a);
    LongerHasColon(a.feed, b.feed);
    assert a.id != b.id;
    assert b.id in s'.milestones && s'.milestones[b.id] == b;
    var key := IndexKey(b.feed, b.id);
    assert key !in s'.index;
    assert Indexed(s', key);
  }
}
