/** Keyset paging of ListSettlements and ListMilestones, backend/module/api/main.go. */
module Paging {
  import opened Order
  import opened Prelude
  import opened Cursor

  /** A row is identified by its block height and its ID. */
  type Key = (int, Bytes)

  datatype Page = Page(items: seq<Key>, nextCursor: Bytes, hasMore: bool)

  /** ORDER BY height DESC, id DESC: `a` comes before `b`. */
  predicate Precedes(a: Key, b: Key) {
    b.0 < a.0 || (b.0 == a.0 && Before(b.1, a.1))
  }

  lemma PrecedesIsStrictTotal()
    ensures StrictTotal<Key>(Precedes)
  {
    hide Before;
    BeforeIsStrictTotal();
    forall x: Key
      ensures !Precedes(x, x)
    {
      assert !Before(x.1, x.1);
    }
    forall x: Key, y: Key, z: Key | Precedes(x, y) && Precedes(y, z)
      ensures Precedes(x, z)
    {
      if x.0 == y.0 && y.0 == z.0 {
        assert Before(z.1, y.1) && Before(y.1, x.1);
        assert Before(z.1, x.1);
      }
    }
    forall x: Key, y: Key
      ensures Precedes(x, y) || x == y || Precedes(y, x)
    {
      assert Before(x.1, y.1) || x.1 == y.1 || Before(y.1, x.1);
    }
  }

  /** The rows in the order of the query. */
  function Sorted(keys: set<Key>): (r: seq<Key>)
    ensures |r| == |keys| && forall k :: k in r <==> k in keys
    ensures forall i, j :: 0 <= i < j < |r| ==> Precedes(r[i], r[j])
  {
    PrecedesIsStrictTotal();
    Ascending(keys, Precedes)
  }

  function PageLimit(requested: nat): (limit: nat)
    ensures 1 <= limit <= 100
  {
    if requested == 0 then 10 else if requested > 100 then 100 else requested
  }

  /** The rows the query selects: all of them, or those that come after the cursor. */
  function Selected(table: set<Key>, after: Key): set<Key> {
    if after.1 == [] then table else set k | k in table && Precedes(after, k)
  }

  function QueryRows(table: set<Key>, after: Key, rows: nat): seq<Key> {
    var all := Sorted(Selected(table, after));
    if |all| <= rows then all else all[..rows]
  }

  function MakePage(rows: seq<Key>, limit: nat): Page
    requires limit >= 1
  {
    if |rows| > limit then
      Page(rows[..limit], EncodeCursor(rows[limit - 1].0, rows[limit - 1].1), true)
    else Page(rows, [], false)
  }

  const FIRST: Key := (0x7fff_ffff_ffff_ffff, [])

  /** A list request; None is an invalid cursor. */
  function ListPage(table: set<Key>, requested: nat, cursor: Bytes): Option<Page> {
    var limit := PageLimit(requested);
    if cursor == [] then Some(MakePage(QueryRows(table, FIRST, limit + 1), limit))
    else
      match DecodeCursor(cursor)
      case None => None
      case Some(after) => Some(MakePage(QueryRows(table, after, limit + 1), limit))
  }

  /** The handler: scan the rows, cut off the extra one and remember where the next page starts. */
  method List(table: set<Key>, requested: nat, cursor: Bytes) returns (page: Option<Page>)
    ensures page == ListPage(table, requested, cursor)
  {
    hide Sorted, DecodeCursor, EncodeCursor;
    var limit := 10;
    if requested > 0 {
      limit := requested;
      if limit > 100 {
        limit := 100;
      }
    }
    var after := FIRST;
    if cursor != [] {
      var decoded := DecodeCursor(cursor);
      if decoded.None? {
        return None;
      }
      after := decoded.value;
    }
    var rows := QueryRows(table, after, limit + 1);
    var items := [];
    for i := 0 to |rows|
      invariant items == rows[..i]
    {
      items := items + [rows[i]];
    }
    assert items == rows;
    var hasMore, nextCursor := false, [];
    if |items| > limit {
      hasMore := true;
      nextCursor := EncodeCursor(items[limit - 1].0, items[limit - 1].1);
      items := items[..limit];
    }
    page := Some(Page(items, nextCursor, hasMore));
  }

  // ---------- One page ----------

  /** Two enumerations of the same rows in the same order are equal. */
  lemma {:induction false} SortedUnique(a: seq<Key>, b: seq<Key>)
    requires forall i, j :: 0 <= i < j < |a| ==> Precedes(a[i], a[j])
    requires forall i, j :: 0 <= i < j < |b| ==> Precedes(b[i], b[j])
    requires forall k :: k in a <==> k in b
    ensures a == b
    decreases |a|
  {
    hide Precedes;
    PrecedesIsStrictTotal();
    BothEmpty(a, b);
    if a == [] {
    } else {
      assert a[0] in a && a[0] in b;
      var i :| 0 <= i < |b| && b[i] == a[0];
      assert b[0] in b && b[0] in a;
      var j :| 0 <= j < |a| && a[j] == b[0];
      assert a[0] == b[0];
      assert forall k :: k in a[1..] <==> k in b[1..] by {
        forall k
          ensures k in a[1..] ==> k in b[1..]
          ensures k in b[1..] ==> k in a[1..]
        {
          TailMembers(a, k);
          TailMembers(b, k);
        }
      }
      SortedUnique(a[1..], b[1..]);
      assert a == [a[0]] + a[1..] && b == [b[0]] + b[1..];
    }
  }

  lemma BothEmpty(a: seq<Key>, b: seq<Key>)
    requires forall k :: k in a <==> k in b
    ensures a == [] <==> b == []
  {
    if a != [] {
      assert a[0] in a && a[0] in b;
    }
    if b != [] {
      assert b[0] in b && b[0] in a;
    }
  }

  lemma TailMembers(a: seq<Key>, k: Key)
    requires a != [] && forall i, j :: 0 <= i < j < |a| ==> Precedes(a[i], a[j])
    ensures k in a[1..] <==> k in a && k != a[0]
  {
    hide Precedes;
    PrecedesIsStrictTotal();
    assert a == [a[0]] + a[1..];
    if k in a[1..] {
      var i :| 0 <= i < |a[1..]| && a[1..][i] == k;
      assert a[i + 1] == k;
    }
  }

  lemma IndexOrder(a: seq<Key>, p: nat, q: nat)
    requires forall i, j :: 0 <= i < j < |a| ==> Precedes(a[i], a[j])
    requires p < |a| && q < |a| && Precedes(a[p], a[q])
    ensures p < q
  {
    hide Precedes;
    PrecedesIsStrictTotal();
  }

  /** The rows after position i are exactly those the cursor of row i - 1 selects. */
  lemma RowsAfter(table: set<Key>, i: nat)
    requires 1 <= i <= |Sorted(table)| && Sorted(table)[i - 1].1 != []
    ensures Sorted(Selected(table, Sorted(table)[i - 1])) == Sorted(table)[i..]
  {
    hide Precedes, Sorted;
    PrecedesIsStrictTotal();
    var all := Sorted(table);
    var rest := all[i..];
    assert forall j :: 0 <= j < |rest| ==> rest[j] == all[i + j];
    forall k
      ensures k in rest <==> k in Selected(table, all[i - 1])
    {
      if k in rest {
        var j :| 0 <= j < |rest| && rest[j] == k;
        assert all[i + j] in all;
      }
      if k in Selected(table, all[i - 1]) {
        assert k in all;
        var j :| 0 <= j < |all| && all[j] == k;
        IndexOrder(all, i - 1, j);
        assert rest[j - i] == k;
      }
    }
    SortedUnique(Sorted(Selected(table, all[i - 1])), rest);
  }

  ghost predicate Heights64(table: set<Key>) {
    forall k :: k in table ==> IsInt64(k.0)
  }

  /** The cursor that a page ending before position i hands out; the empty one at the start. */
  function CursorAt(all: seq<Key>, i: nat): Bytes
    requires i <= |all|
  {
    if i == 0 then [] else EncodeCursor(all[i - 1].0, all[i - 1].1)
  }

  /** The page starting at position i of the sorted rows. */
  function PageAt(all: seq<Key>, limit: nat, i: nat): Page
    requires i <= |all|
  {
    if i + limit < |all| then Page(all[i..i + limit], CursorAt(all, i + limit), true)
    else Page(all[i..], [], false)
  }

  lemma PageFollows(table: set<Key>, requested: nat, i: nat)
    requires Heights64(table)
    requires i <= |Sorted(table)| && (i > 0 ==> Sorted(table)[i - 1].1 != [])
    ensures ListPage(table, requested, CursorAt(Sorted(table), i)) ==
              Some(PageAt(Sorted(table), PageLimit(requested), i))
  {
    hide Sorted, EncodeCursor, DecodeCursor, Precedes;
    var all, limit := Sorted(table), PageLimit(requested);
    var after := if i == 0 then FIRST else all[i - 1];
    if i > 0 {
      assert all[i - 1] in all;
      CursorRoundTrip(all[i - 1].0, all[i - 1].1);
      RowsAfter(table, i);
    } else {
      assert all[0..] == all;
    }
    assert Sorted(Selected(table, after)) == all[i..];
    var rows := QueryRows(table, after, limit + 1);
    if i + limit < |all| {
      assert rows == all[i..][..limit + 1];
      assert rows[..limit] == all[i..i + limit] && rows[limit - 1] == all[i + limit - 1];
    } else {
      assert rows == all[i..];
    }
  }

  /**
   With enough rows left a page holds as many as were asked for: 10 when no number is given, never more than
   100.  Otherwise it holds all that are left, and it announces more exactly when some remain.
   */
  ghost predicate HoldsRequested(page: Page, requested: nat, left: nat) {
    && (1 <= requested <= 100 && left >= requested ==> |page.items| == requested)
    && (requested == 0 && left >= 10 ==> |page.items| == 10)
    && (requested > 100 && left >= 100 ==> |page.items| == 100)
    && |page.items| <= left
    && (page.hasMore <==> |page.items| < left)
    && (page.nextCursor != [] ==> page.hasMore)
  }

  lemma PageHoldsRequested(table: set<Key>, requested: nat, i: nat)
    requires Heights64(table)
    requires i <= |Sorted(table)| && (i > 0 ==> Sorted(table)[i - 1].1 != [])
    ensures ListPage(table, requested, CursorAt(Sorted(table), i)).Some?
    ensures HoldsRequested(ListPage(table, requested, CursorAt(Sorted(table), i)).value, requested, |Sorted(table)| - i)
  {
    hide Sorted, EncodeCursor, Precedes, ListPage, CursorAt;
    PageFollows(table, requested, i);
  }

  /** A cursor made of an empty ID selects everything: the next page is the first page again. */
  lemma EmptyIdRestarts(table: set<Key>, requested: nat, height: int)
    requires IsInt64(height)
    ensures ListPage(table, requested, EncodeCursor(height, [])) == ListPage(table, requested, [])
  {
    hide Sorted, EncodeCursor, DecodeCursor;
    CursorRoundTrip(height, []);
  }

  // ---------- Following the cursors ----------

  /** The rows of at most `pages` pages, and whether the last of them said there was no more. */
  function Follow(table: set<Key>, requested: nat, cursor: Bytes, pages: nat): (seq<Key>, bool)
    decreases pages
  {
    if pages == 0 then ([], false)
    else
      match ListPage(table, requested, cursor)
      case None => ([], false)
      case Some(page) =>
        if !page.hasMore then (page.items, true)
        else
          var (rest, finished) := Follow(table, requested, page.nextCursor, pages - 1);
          (page.items + rest, finished)
  }

  /** No page starting at position i or later ends at a row with an empty ID. */
  ghost predicate GoodBoundaries(all: seq<Key>, limit: nat, i: nat)
    requires i <= |all| && limit >= 1
    decreases |all| - i
  {
    i + limit >= |all| || (all[i + limit - 1].1 != [] && GoodBoundaries(all, limit, i + limit))
  }

  /** Fetching the page at position i and following its cursor. */
  lemma FollowStep(table: set<Key>, requested: nat, i: nat, pages: nat)
    requires Heights64(table) && pages > 0
    requires i <= |Sorted(table)| && (i > 0 ==> Sorted(table)[i - 1].1 != [])
    ensures var all, limit := Sorted(table), PageLimit(requested);
            Follow(table, requested, CursorAt(all, i), pages)
            == if i + limit < |all| then
                 var (rest, finished) := Follow(table, requested, CursorAt(all, i + limit), pages - 1);
                 (all[i..i + limit] + rest, finished)
               else (all[i..], true)
  {
    hide Sorted, ListPage, CursorAt, PageLimit;
    PageFollows(table, requested, i);
  }

  lemma {:induction false} FollowFrom(table: set<Key>, requested: nat, i: nat, pages: nat)
    requires Heights64(table)
    requires i <= |Sorted(table)| && (i > 0 ==> Sorted(table)[i - 1].1 != [])
    requires GoodBoundaries(Sorted(table), PageLimit(requested), i)
    requires pages > |Sorted(table)| - i
    ensures Follow(table, requested, CursorAt(Sorted(table), i), pages) == (Sorted(table)[i..], true)
    decreases pages
  {
    hide Sorted, ListPage, CursorAt, PageLimit, Follow, Heights64;
    var all, limit := Sorted(table), PageLimit(requested);
    FollowStep(table, requested, i, pages);
    if i + limit < |all| {
      FollowFrom(table, requested, i + limit, pages - 1);
      assert all[i..i + limit] + all[i + limit..] == all[i..];
    }
  }

  lemma {:induction false} FollowForever(table: set<Key>, requested: nat, i: nat, pages: nat)
    requires Heights64(table)
    requires i <= |Sorted(table)| && (i > 0 ==> Sorted(table)[i - 1].1 != [])
    requires !GoodBoundaries(Sorted(table), PageLimit(requested), i)
    requires !GoodBoundaries(Sorted(table), PageLimit(requested), 0)
    ensures !Follow(table, requested, CursorAt(Sorted(table), i), pages).1
    decreases pages
  {
    hide Sorted, ListPage, CursorAt, PageLimit, Follow, Heights64;
    if pages == 0 {
      FollowNone(table, requested, CursorAt(Sorted(table), i));
    } else {
      var all, limit := Sorted(table), PageLimit(requested);
      FollowStep(table, requested, i, pages);
      if all[i + limit - 1].1 == [] {
        RestartAt(table, requested, i + limit);
        FollowForever(table, requested, 0, pages - 1);
        SameAsFirst(table, requested, CursorAt(all, i + limit), pages - 1);
      } else {
        FollowForever(table, requested, i + limit, pages - 1);
      }
    }
  }

  lemma RestartAt(table: set<Key>, requested: nat, i: nat)
    requires Heights64(table) && 1 <= i <= |Sorted(table)| && Sorted(table)[i - 1].1 == []
    ensures CursorAt(Sorted(table), 0) == []
    ensures ListPage(table, requested, CursorAt(Sorted(table), i)) == ListPage(table, requested, [])
  {
    hide Sorted, ListPage, EncodeCursor;
    assert Sorted(table)[i - 1] in Sorted(table);
    EmptyIdRestarts(table, requested, Sorted(table)[i - 1].0);
  }

  lemma FollowNone(table: set<Key>, requested: nat, cursor: Bytes)
    ensures !Follow(table, requested, cursor, 0).1
  {
  }

  lemma SameAsFirst(table: set<Key>, requested: nat, cursor: Bytes, pages: nat)
    requires ListPage(table, requested, cursor) == ListPage(table, requested, [])
    ensures Follow(table, requested, cursor, pages) == Follow(table, requested, [], pages)
  {
    hide ListPage;
  }

  /**
   Following the cursors from the start visits every row exactly once, in order, and then stops, if no
   page ends at a row with an empty ID; otherwise it never stops, however many pages are fetched.
   */
  lemma PagingVisitsAll(table: set<Key>, requested: nat, pages: nat)
    requires Heights64(table)
    ensures GoodBoundaries(Sorted(table), PageLimit(requested), 0) && pages > |table| ==>
              Follow(table, requested, [], pages) == (Sorted(table), true)
    ensures !GoodBoundaries(Sorted(table), PageLimit(requested), 0) ==> !Follow(table, requested, [], pages).1
  {
    hide Sorted, Follow, GoodBoundaries;
    if GoodBoundaries(Sorted(table), PageLimit(requested), 0) {
      if pages > |table| {
        FollowFrom(table, requested, 0, pages);
        assert Sorted(table)[0..] == Sorted(table);
      }
    } else {
      FollowForever(table, requested, 0, pages);
    }
  }

  /** Non-empty IDs everywhere are enough, for every page size. */
  lemma {:induction false} NonEmptyIdsAreGood(all: seq<Key>, limit: nat, i: nat)
    requires i <= |all| && limit >= 1
    requires forall k :: k in all ==> k.1 != []
    ensures GoodBoundaries(all, limit, i)
    decreases |all| - i
  {
    if i + limit < |all| {
      assert all[i + limit - 1] in all;
      NonEmptyIdsAreGood(all, limit, i + limit);
    }
  }
}
