/** What the pages of both back ends hold, told by the fields of the tables alone. */
module PageContents {
  import opened Results
  import opened Collections
  import opened Timeline
  import opened ArticleStore
  import opened Pages
  import Cursor
  import SqlitePager
  import D = DatastorePager
  import T = PagingTheorems
  import UnreadPaging

  // ---------------------------------------------------------------------------------------
  // SQLite.
  // ---------------------------------------------------------------------------------------

  /** An article of a subscribed feed that the request asks for. */
  ghost predicate Selects(st: Store, q: Query, id: int) {
    && id in st.articles && (q.userID, st.articles[id].feedID) in st.subscriptions
    && (q.feedID == 0 || st.articles[id].feedID == q.feedID)
    && (q.unreadOnly ==> !((q.userID, id) in st.statuses && st.statuses[(q.userID, id)].isRead))
  }

  /** The row holds the stored article without its content and, where `known`, the user's stored marks;
      else none. */
  ghost predicate HoldsStored(st: Store, userID: int, row: Row, known: bool) {
    && row.id in st.articles && row.article == st.articles[row.id].(content := "")
    && (row.isRead <==> known && (userID, row.id) in st.statuses && st.statuses[(userID, row.id)].isRead)
    && (row.isStarred <==> known && (userID, row.id) in st.statuses && st.statuses[(userID, row.id)].isStarred)
  }

  /** Published before the time the cursor names, or at that time under a smaller id. */
  ghost predicate LiesBehind(cursor: string, publishedAt: int, id: int) {
    cursor == "" ||
    (&& Cursor.Decode(cursor).Ok?
     && var c := Cursor.Decode(cursor).value;
        publishedAt < c.publishedAt || (publishedAt == c.publishedAt && id < c.id))
  }

  ghost predicate Shown(p: Page, id: int) {
    exists i :: 0 <= i < |p.articles| && p.articles[i].id == id
  }

  /** Asked for, behind the cursor, and not on the page. */
  ghost predicate LeftOut(st: Store, q: Query, cursor: string, p: Page, id: int) {
    Selects(st, q, id) && LiesBehind(cursor, st.articles[id].publishedAt, id) && !Shown(p, id)
  }

  lemma {:induction false} RemainingInFields(st: Store, q: Query, cursor: string, r: Ref)
    requires ValidCursor(cursor)
    ensures r in SqlitePager.Remaining(st, q, cursor)
       <==> Selects(st, q, r.id) && st.articles[r.id].publishedAt == r.publishedAt
            && LiesBehind(cursor, r.publishedAt, r.id)
  {
    if r in SqlitePager.Matching(st, q) {
      assert SqlitePager.Matches(st, q, r.id);
    }
    if Selects(st, q, r.id) {
      assert SqlitePager.Matches(st, q, r.id) && st.RefOf(r.id) in SqlitePager.Matching(st, q);
    }
  }

  lemma {:induction false} ShownRef(p: Page, i: nat)
    requires i < |p.articles|
    ensures p.Refs()[i] == Ref(p.articles[i].id, p.articles[i].article.publishedAt)
  {
  }

  /** What a page of SQLite shows: at most `limit` rows, each a stored article the request selects, behind
      the cursor, newest first and of equal times the larger id first. */
  lemma {:induction false} SqliteRowsInFields(st: Store, q: Query, cursor: string, p: Page)
    requires ValidCursor(cursor) && SqlitePager.IsPage(st, q, cursor, p)
    ensures |p.articles| <= q.limit
    ensures forall i :: 0 <= i < |p.articles| ==>
      && Selects(st, q, p.articles[i].id) && HoldsStored(st, q.userID, p.articles[i], true)
      && LiesBehind(cursor, p.articles[i].article.publishedAt, p.articles[i].id)
    ensures forall i, j :: 0 <= i < j < |p.articles| ==> var a, b := p.articles[i], p.articles[j];
      a.article.publishedAt > b.article.publishedAt || (a.article.publishedAt == b.article.publishedAt && a.id > b.id)
  {
    var rest := Listing(SqlitePager.Remaining(st, q, cursor));
    forall i | 0 <= i < |p.articles|
      ensures rest[i] == Ref(p.articles[i].id, p.articles[i].article.publishedAt)
      ensures Selects(st, q, p.articles[i].id) && HoldsStored(st, q.userID, p.articles[i], true)
      ensures LiesBehind(cursor, p.articles[i].article.publishedAt, p.articles[i].id)
    {
      ShownRef(p, i);
      assert p.articles[i] in p.articles && rest[i] in SqlitePager.Remaining(st, q, cursor);
      RemainingInFields(st, q, cursor, rest[i]);
    }
  }

  lemma {:induction false} LeftOutIsFurther(st: Store, q: Query, cursor: string, p: Page, id: int) returns (j: nat)
    requires ValidCursor(cursor) && SqlitePager.IsPage(st, q, cursor, p) && LeftOut(st, q, cursor, p, id)
    ensures var rest := Listing(SqlitePager.Remaining(st, q, cursor));
      q.limit <= j < |rest| && rest[j] == Ref(id, st.articles[id].publishedAt)
  {
    var rest := Listing(SqlitePager.Remaining(st, q, cursor));
    var r := Ref(id, st.articles[id].publishedAt);
    RemainingInFields(st, q, cursor, r);
    j :| 0 <= j < |rest| && rest[j] == r;
    assert |p.articles| == |Take(rest, q.limit)|;
    forall i | 0 <= i < |p.articles| ensures rest[i].id == p.articles[i].id {
      ShownRef(p, i);
    }
  }

  /** And what it does not show: whatever is left out although it lies behind the cursor comes after every
      row of a full page; then, and only then, there is a cursor, printed from the time and the id of
      the last row. */
  lemma {:induction false} SqliteOrderInFields(st: Store, q: Query, cursor: string, p: Page)
    requires q.limit > 0 && ValidCursor(cursor) && SqlitePager.IsPage(st, q, cursor, p)
    ensures forall id, i :: LeftOut(st, q, cursor, p, id) && 0 <= i < |p.articles| ==>
      var row, time := p.articles[i], st.articles[id].publishedAt;
      row.article.publishedAt > time || (row.article.publishedAt == time && row.id > id)
    ensures p.nextCursor != "" <==> exists id :: LeftOut(st, q, cursor, p, id)
    ensures p.nextCursor != "" ==> |p.articles| == q.limit && var last := p.articles[q.limit - 1];
      p.nextCursor == Cursor.Print(last.article.publishedAt) + "_" + Cursor.Print(last.id)
  {
    var rest := Listing(SqlitePager.Remaining(st, q, cursor));
    forall i | 0 <= i < |p.articles|
      ensures i < q.limit && rest[i] == Ref(p.articles[i].id, p.articles[i].article.publishedAt)
    {
      ShownRef(p, i);
    }
    forall id | LeftOut(st, q, cursor, p, id)
      ensures exists j :: q.limit <= j < |rest| && rest[j] == Ref(id, st.articles[id].publishedAt)
    {
      var j := LeftOutIsFurther(st, q, cursor, p, id);
    }
    if |rest| > q.limit {
      RemainingInFields(st, q, cursor, rest[q.limit]);
      assert LeftOut(st, q, cursor, p, rest[q.limit].id);
    }
  }

  // ---------------------------------------------------------------------------------------
  // Datastore.
  // ---------------------------------------------------------------------------------------

  /** The user's feed is asked for and its projection does not fail. */
  ghost predicate Asked(userFeeds: seq<int>, q: Query, faults: D.Faults, feedID: int) {
    feedID in userFeeds && (q.feedID == 0 || feedID == q.feedID) && feedID !in faults.feedQueries
  }

  /** The articles of the same feed that were published later, or at the same time under a larger id. */
  ghost function NewerInFeed(st: Store, id: int): set<int>
    requires id in st.articles
  {
    var a := st.articles[id];
    set o | o in st.articles && st.articles[o].feedID == a.feedID
         && (st.articles[o].publishedAt > a.publishedAt || (st.articles[o].publishedAt == a.publishedAt && o > id))
  }

  /** Of an asked feed that holds fewer than min(2 * limit, 200) newer articles. */
  ghost predicate Reachable(st: Store, userFeeds: seq<int>, q: Query, faults: D.Faults, id: int) {
    && id in st.articles && Asked(userFeeds, q, faults, st.articles[id].feedID)
    && |NewerInFeed(st, id)| < if 2 * q.limit > 200 then 200 else 2 * q.limit
  }

  /** Known to be read: the status is stored, says so, and its read does not fail. */
  ghost predicate KnownRead(st: Store, q: Query, faults: D.Faults, id: int) {
    (q.userID, id) in st.statuses && st.statuses[(q.userID, id)].isRead && id !in faults.statusReads
  }

  /** Reachable, behind the cursor, loadable, passing the unread filter, and not on the page. */
  ghost predicate PassedOver(st: Store, userFeeds: seq<int>, q: Query, cursor: string, faults: D.Faults,
                             p: Page, id: int) {
    && Reachable(st, userFeeds, q, faults, id) && LiesBehind(cursor, st.articles[id].publishedAt, id)
    && id !in faults.entityReads && (q.unreadOnly ==> !KnownRead(st, q, faults, id)) && !Shown(p, id)
  }

  lemma {:induction false} RefsOfIds(st: Store, ids: set<int>)
    requires ids <= st.articles.Keys
    ensures |set o | o in ids :: st.RefOf(o)| == |ids|
  {
    if ids != {} {
      var x := PickAny(ids);
      RefsOfIds(st, ids - {x});
      SameSet(set o | o in ids :: st.RefOf(o), (set o | o in ids - {x} :: st.RefOf(o)) + {st.RefOf(x)});
    }
  }

  lemma {:induction false} NewerRefs(st: Store, id: int)
    requires id in st.articles
    ensures |set x | x in D.FeedRefs(st, st.articles[id].feedID) && Before(x, st.RefOf(id))| == |NewerInFeed(st, id)|
  {
    RefsOfIds(st, NewerInFeed(st, id));
    var refs := set x | x in D.FeedRefs(st, st.articles[id].feedID) && Before(x, st.RefOf(id));
    forall x ensures x in refs <==> x in (set o | o in NewerInFeed(st, id) :: st.RefOf(o)) {
      if x in refs {
        assert x.id in NewerInFeed(st, id) && st.RefOf(x.id) == x;
      }
    }
    SameSet(refs, set o | o in NewerInFeed(st, id) :: st.RefOf(o));
  }

  lemma {:induction false} MergedInFields(st: Store, userFeeds: seq<int>, q: Query, faults: D.Faults, r: Ref)
    ensures r in D.Merged(st, userFeeds, q, faults.feedQueries)
       <==> Reachable(st, userFeeds, q, faults, r.id) && st.articles[r.id].publishedAt == r.publishedAt
  {
    var feeds, k := D.Answering(D.FeedsAsked(userFeeds, q.feedID), faults.feedQueries), D.CapAtFeedMax(q.limit * 2);
    D.MergedIsStored(st, feeds, k);
    if r in D.Gathered(st, feeds, k) {
      var f :| f in feeds && r in D.ProjectNewest(st, f, k);
      D.ProjectionIsStored(st, f, k);
      assert Asked(userFeeds, q, faults, st.articles[r.id].feedID);
    }
    if r.id in st.articles && st.RefOf(r.id) == r {
      var f := st.articles[r.id].feedID;
      if f in feeds {
        assert r in D.FeedRefs(st, f);
        T.DepthLimit(st, feeds, k, f, r);
        NewerRefs(st, r.id);
      }
    }
  }

  lemma {:induction false} KeptDescends(refs: seq<Ref>, unreadOnly: bool, seenRead: set<int>)
    requires Descending(refs)
    ensures Descending(D.KeepUnread(refs, unreadOnly, seenRead))
  {
    if unreadOnly {
      UnreadPaging.KeepUnreadDescends(refs, seenRead);
    } else {
      D.KeepAll(refs, false, seenRead);
    }
  }

  lemma {:induction false} RestComesLater(s: seq<Ref>, n: nat, r: Ref)
    requires Descending(s) && r in s && r !in Take(s, n)
    ensures |Take(s, n)| == n && forall x :: x in Take(s, n) ==> Before(x, r)
  {
    var j :| 0 <= j < |s| && s[j] == r;
    assert forall i :: 0 <= i < |Take(s, n)| ==> Take(s, n)[i] == s[i] && s[i] in Take(s, n);
  }

  /** What passes the filter but is not on the page comes after all of it, and the page is full
      unless the filter is on. */
  lemma {:induction false} OthersComeLater(remaining: seq<Ref>, limit: nat, unreadOnly: bool, seenRead: set<int>,
                                           r: Ref)
    requires limit > 0 && Descending(remaining) && r in remaining && D.Kept(unreadOnly, seenRead, r)
    requires r !in D.PageRefs(remaining, limit, unreadOnly, seenRead)
    ensures forall x :: x in D.PageRefs(remaining, limit, unreadOnly, seenRead) ==> Before(x, r)
    ensures !unreadOnly ==> |D.PageRefs(remaining, limit, unreadOnly, seenRead)| == limit
  {
    var window := D.Candidates(remaining, limit, unreadOnly);
    D.KeepUnreadMembers(window, unreadOnly, seenRead);
    D.PageWithinCandidates(remaining, limit, unreadOnly, seenRead);
    if r in window {
      KeptDescends(window, unreadOnly, seenRead);
      RestComesLater(D.KeepUnread(window, unreadOnly, seenRead), limit, r);
    } else {
      assert window == Take(remaining, |window|);
      RestComesLater(remaining, |window|, r);
    }
    if !unreadOnly {
      D.KeepAll(window, false, seenRead);
    }
  }

  /** Every ref of a page remains behind the cursor and passes the filter, and pages descend. */
  lemma {:induction false} PageRefsAreKept(remaining: seq<Ref>, limit: nat, unreadOnly: bool, seenRead: set<int>)
    requires Descending(remaining)
    ensures var page := D.PageRefs(remaining, limit, unreadOnly, seenRead);
      && Descending(page) && |page| <= limit
      && (forall r :: r in page ==> r in D.Candidates(remaining, limit, unreadOnly) && r in remaining)
      && (forall r :: r in page ==> D.Kept(unreadOnly, seenRead, r))
  {
    var window := D.Candidates(remaining, limit, unreadOnly);
    KeptDescends(window, unreadOnly, seenRead);
    D.KeepUnreadMembers(window, unreadOnly, seenRead);
    D.PageWithinCandidates(remaining, limit, unreadOnly, seenRead);
    var kept := D.KeepUnread(window, unreadOnly, seenRead);
    forall r | r in Take(kept, limit) ensures r in kept {
    }
  }

  lemma {:induction false} BehindPosition(cursor: string, r: Ref)
    requires ValidCursor(cursor)
    ensures LiesBehind(cursor, r.publishedAt, r.id)
       <==> Position(cursor).None? || Before(Position(cursor).value, r)
  {
  }

  /** What lies behind a position is part of the rest it leads to, and then all of that rest does. */
  lemma {:induction false} StartsBehind(merged: seq<Ref>, pos: Option<Ref>, r: Ref)
    requires Descending(merged) && r in merged && (pos.Some? ==> Before(pos.value, r))
    ensures var rest := merged[D.StartIndex(merged, pos)..];
      r in rest && (pos.Some? ==> forall x :: x in rest ==> Before(pos.value, x))
  {
    var start := D.StartIndex(merged, pos);
    var rest := merged[start..];
    var j :| 0 <= j < |merged| && merged[j] == r;
    assert start <= j && rest[j - start] == r;
    if pos.Some? {
      assert Before(pos.value, merged[start]);
    }
  }

  lemma {:induction false} SeenReadInFields(st: Store, q: Query, faults: D.Faults, window: seq<Ref>, r: Ref)
    requires r in window
    ensures r.id in D.SeenRead(st, q.userID, window, faults.statusReads) <==> KnownRead(st, q, faults, r.id)
  {
  }

  lemma {:induction false} ShownRows(st: Store, q: Query, remaining: seq<Ref>, faults: D.Faults, p: Page)
    requires Descending(remaining) && D.Shows(st, q, remaining, faults, p)
    ensures |p.articles| <= q.limit && Descending(p.Refs())
    ensures forall i :: 0 <= i < |p.articles| ==> var row := p.articles[i];
      && p.Refs()[i] in remaining && HoldsStored(st, q.userID, row, row.id !in faults.statusReads)
      && row.id !in faults.entityReads && (q.unreadOnly ==> !row.isRead)
  {
    var window := D.Candidates(remaining, q.limit, q.unreadOnly);
    var seenRead := D.SeenRead(st, q.userID, window, faults.statusReads);
    var page := D.PageRefs(remaining, q.limit, q.unreadOnly, seenRead);
    PageRefsAreKept(remaining, q.limit, q.unreadOnly, seenRead);
    D.KeepUnreadMembers(page, true, faults.entityReads);
    KeptDescends(page, true, faults.entityReads);
    forall i | 0 <= i < |p.articles|
      ensures p.Refs()[i] in remaining && p.articles[i].id !in faults.entityReads
      ensures HoldsStored(st, q.userID, p.articles[i], p.articles[i].id !in faults.statusReads)
      ensures q.unreadOnly ==> !p.articles[i].isRead
    {
      ShownRef(p, i);
      assert p.articles[i] in p.articles && p.Refs()[i] in D.Loaded(page, faults.entityReads);
      SeenReadInFields(st, q, faults, window, p.Refs()[i]);
    }
  }

  lemma {:induction false} UnshownRef(st: Store, q: Query, remaining: seq<Ref>, faults: D.Faults, p: Page, r: Ref)
    requires q.limit > 0 && Descending(remaining) && D.Shows(st, q, remaining, faults, p)
    requires r in remaining && r !in p.Refs() && r.id !in faults.entityReads
    requires q.unreadOnly ==> !KnownRead(st, q, faults, r.id)
    ensures forall x :: x in p.Refs() ==> Before(x, r)
    ensures !q.unreadOnly && faults.entityReads == {} ==> |p.articles| == q.limit
  {
    var window := D.Candidates(remaining, q.limit, q.unreadOnly);
    var seenRead := D.SeenRead(st, q.userID, window, faults.statusReads);
    var page := D.PageRefs(remaining, q.limit, q.unreadOnly, seenRead);
    D.KeepUnreadMembers(page, true, faults.entityReads);
    assert r.id in seenRead ==> KnownRead(st, q, faults, r.id);
    OthersComeLater(remaining, q.limit, q.unreadOnly, seenRead, r);
    if faults.entityReads == {} {
      D.KeepAll(page, true, {});
    }
  }

  lemma {:induction false} CursorOfLastRow(st: Store, q: Query, remaining: seq<Ref>, faults: D.Faults, p: Page)
    requires D.Shows(st, q, remaining, faults, p) && p.nextCursor != "" && faults.entityReads == {}
    ensures |p.articles| == q.limit > 0 && var last := p.articles[q.limit - 1];
      p.nextCursor == Cursor.Print(last.article.publishedAt) + "_" + Cursor.Print(last.id)
  {
    var window := D.Candidates(remaining, q.limit, q.unreadOnly);
    var seenRead := D.SeenRead(st, q.userID, window, faults.statusReads);
    D.KeepAll(D.PageRefs(remaining, q.limit, q.unreadOnly, seenRead), true, {});
    ShownRef(p, q.limit - 1);
  }

  lemma {:induction false} ReachableBehind(st: Store, userFeeds: seq<int>, q: Query, cursor: string, faults: D.Faults,
                                           id: int)
    requires ValidCursor(cursor) && Reachable(st, userFeeds, q, faults, id)
    requires LiesBehind(cursor, st.articles[id].publishedAt, id)
    ensures var merged := D.Merged(st, userFeeds, q, faults.feedQueries);
      var rest := merged[D.StartIndex(merged, Position(cursor))..];
      st.RefOf(id) in rest && forall x :: x in rest ==> LiesBehind(cursor, x.publishedAt, x.id)
  {
    var merged := D.Merged(st, userFeeds, q, faults.feedQueries);
    MergedInFields(st, userFeeds, q, faults, st.RefOf(id));
    BehindPosition(cursor, st.RefOf(id));
    StartsBehind(merged, Position(cursor), st.RefOf(id));
    forall x | x in merged[D.StartIndex(merged, Position(cursor))..] ensures LiesBehind(cursor, x.publishedAt, x.id) {
      BehindPosition(cursor, x);
    }
  }

  /** What a page of Datastore shows, under any failing reads: at most `limit` rows, each a stored article
      of an asked feed, newest first and of equal times the larger id first. Marks whose read fails
      are absent. A cursor is printed from the time and the id of the last row. */
  lemma {:induction false} DatastoreRowsInFields(st: Store, userFeeds: seq<int>, q: Query, cursor: string,
                                                 faults: D.Faults, p: Page)
    requires D.FeedsAsked(userFeeds, q.feedID) == [] || ValidCursor(cursor)
    requires D.Answers(st, userFeeds, q, cursor, faults, p)
    ensures |p.articles| <= q.limit
    ensures forall i :: 0 <= i < |p.articles| ==> var row := p.articles[i];
      && Reachable(st, userFeeds, q, faults, row.id) && row.id !in faults.entityReads
      && HoldsStored(st, q.userID, row, row.id !in faults.statusReads) && (q.unreadOnly ==> !row.isRead)
    ensures forall i, j :: 0 <= i < j < |p.articles| ==> var a, b := p.articles[i], p.articles[j];
      a.article.publishedAt > b.article.publishedAt || (a.article.publishedAt == b.article.publishedAt && a.id > b.id)
    ensures p.nextCursor != "" && faults.entityReads == {} ==>
      |p.articles| == q.limit > 0 && var last := p.articles[q.limit - 1];
      p.nextCursor == Cursor.Print(last.article.publishedAt) + "_" + Cursor.Print(last.id)
  {
    if D.FeedsAsked(userFeeds, q.feedID) != [] {
      var merged := D.Merged(st, userFeeds, q, faults.feedQueries);
      var remaining := merged[D.StartIndex(merged, Position(cursor))..];
      ShownRows(st, q, remaining, faults, p);
      if p.nextCursor != "" && faults.entityReads == {} {
        CursorOfLastRow(st, q, remaining, faults, p);
      }
      forall i | 0 <= i < |p.articles| ensures Reachable(st, userFeeds, q, faults, p.articles[i].id) {
        ShownRef(p, i);
        MergedInFields(st, userFeeds, q, faults, p.Refs()[i]);
      }
    }
  }

  lemma {:induction false} PassedOverComesLater(st: Store, q: Query, remaining: seq<Ref>, faults: D.Faults, p: Page,
                                                r: Ref)
    requires q.limit > 0 && Descending(remaining) && D.Shows(st, q, remaining, faults, p) && r in remaining
    requires !Shown(p, r.id) && r.id !in faults.entityReads && (q.unreadOnly ==> !KnownRead(st, q, faults, r.id))
    ensures forall i :: 0 <= i < |p.articles| ==> var row := p.articles[i];
      row.article.publishedAt > r.publishedAt || (row.article.publishedAt == r.publishedAt && row.id > r.id)
    ensures !q.unreadOnly && faults.entityReads == {} ==> |p.articles| == q.limit
  {
    forall i | 0 <= i < |p.articles| ensures p.Refs()[i] == Ref(p.articles[i].id, p.articles[i].article.publishedAt) {
      ShownRef(p, i);
    }
    UnshownRef(st, q, remaining, faults, p, r);
    forall i | 0 <= i < |p.articles| ensures Before(p.Refs()[i], r) {
      assert p.Refs()[i] in p.Refs();
    }
  }

  lemma {:induction false} ShownLiesBehind(st: Store, q: Query, remaining: seq<Ref>, faults: D.Faults, p: Page,
                                           cursor: string)
    requires Descending(remaining) && D.Shows(st, q, remaining, faults, p)
    requires forall x :: x in remaining ==> LiesBehind(cursor, x.publishedAt, x.id)
    ensures forall i :: 0 <= i < |p.articles| ==>
      LiesBehind(cursor, p.articles[i].article.publishedAt, p.articles[i].id)
  {
    ShownRows(st, q, remaining, faults, p);
    forall i | 0 <= i < |p.articles|
      ensures LiesBehind(cursor, p.articles[i].article.publishedAt, p.articles[i].id)
    {
      ShownRef(p, i);
      assert p.Refs()[i] in remaining;
    }
  }

  /** And what it does not show: if anything reachable lies behind the cursor, every row does; what is
      passed over comes after every row, and then a page of all articles is full. */
  lemma {:induction false} DatastoreOrderInFields(st: Store, userFeeds: seq<int>, q: Query, cursor: string,
                                                  faults: D.Faults, p: Page, id: int)
    requires q.limit > 0 && (D.FeedsAsked(userFeeds, q.feedID) == [] || ValidCursor(cursor))
    requires D.Answers(st, userFeeds, q, cursor, faults, p)
    requires Reachable(st, userFeeds, q, faults, id) && LiesBehind(cursor, st.articles[id].publishedAt, id)
    ensures forall i :: 0 <= i < |p.articles| ==>
      LiesBehind(cursor, p.articles[i].article.publishedAt, p.articles[i].id)
    ensures PassedOver(st, userFeeds, q, cursor, faults, p, id) ==>
      && (q.unreadOnly || faults.entityReads != {} || |p.articles| == q.limit)
      && forall i :: 0 <= i < |p.articles| ==> var row, time := p.articles[i], st.articles[id].publishedAt;
           row.article.publishedAt > time || (row.article.publishedAt == time && row.id > id)
  {
    assert st.articles[id].feedID in D.FeedsAsked(userFeeds, q.feedID);
    var merged := D.Merged(st, userFeeds, q, faults.feedQueries);
    var remaining := merged[D.StartIndex(merged, Position(cursor))..];
    ReachableBehind(st, userFeeds, q, cursor, faults, id);
    ShownLiesBehind(st, q, remaining, faults, p, cursor);
    if PassedOver(st, userFeeds, q, cursor, faults, p, id) {
      PassedOverComesLater(st, q, remaining, faults, p, st.RefOf(id));
    }
  }

  // ---------------------------------------------------------------------------------------
  // Two articles of one time.
  // ---------------------------------------------------------------------------------------

  lemma {:induction false} TieListing(st: Store, a: Article)
    requires a == Article(7, "", "", "", "", "", 10, 0) && st == Store(map[1 := a, 2 := a], {(1, 7)}, map[])
    ensures Listing(SqlitePager.Matching(st, Query(1, 0, 1, false))) == [Ref(2, 10), Ref(1, 10)]
  {
    var q, s := Query(1, 0, 1, false), [Ref(2, 10), Ref(1, 10)];
    forall r ensures r in s <==> r in SqlitePager.Matching(st, q) {
      RemainingInFields(st, q, "", r);
      assert Behind(SqlitePager.Matching(st, q), None) == SqlitePager.Matching(st, q);
    }
    ListingUnique(s, Listing(SqlitePager.Matching(st, q)), SqlitePager.Matching(st, q));
  }

  /** Both back ends show article 2 before article 1, and print its time and id into the cursor. */
  lemma {:induction false} TieShowsLargerIdFirst() returns (st: Store, p: Page)
    ensures st.articles.Keys == {1, 2} && st.articles[1].publishedAt == st.articles[2].publishedAt == 10
    ensures |p.articles| == 1 && p.articles[0].id == 2 && p.nextCursor == "10_2"
    ensures forall s :: SqlitePager.IsPage(st, Query(1, 0, 1, false), "", s) ==> s == p
    ensures forall d :: D.Answers(st, [7], Query(1, 0, 1, false), "", D.NO_FAULTS, d) ==> d == p
  {
    var a, q := Article(7, "", "", "", "", "", 10, 0), Query(1, 0, 1, false);
    st, p := Store(map[1 := a, 2 := a], {(1, 7)}, map[]), Page([Row(2, a, false, false)], "10_2");
    TieListing(st, a);
    Cursor.PrintedExamples();
    assert Behind(SqlitePager.Matching(st, q), None) == SqlitePager.Matching(st, q);
    assert p.Refs() == [Ref(2, 10)];
    assert SqlitePager.IsPage(st, q, "", p);
    forall s | SqlitePager.IsPage(st, q, "", s) ensures s == p {
      assert s.Refs() == [Ref(2, 10)] && s.articles[0] in s.articles;
      ShownRef(s, 0);
      assert s.articles == [s.articles[0]];
    }
    forall d | D.Answers(st, [7], q, "", D.NO_FAULTS, d) ensures d == p {
      T.BackendsAgree(st, [7], q, 0, "", p, d);
    }
  }
}
