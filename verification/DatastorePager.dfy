/** Pagination of the Datastore back end: per-feed projections gathered concurrently, one global
    sort, a cursor scan, a candidate window, a status filter and the next-cursor decision. */
module DatastorePager {
  import opened Results
  import opened Collections
  import opened Timeline
  import opened ArticleStore
  import opened Pages

  const MAX_ARTICLES_PER_FEED: nat := 200
  const FEED_BATCH_SIZE: nat := 5

  /** Reads that fail during one request: feed projections, status reads, entity reads. */
  datatype Faults = Faults(feedQueries: set<int>, statusReads: set<int>, entityReads: set<int>)

  const NO_FAULTS := Faults({}, {}, {})

  function CapAtFeedMax(n: nat): nat {
    if n > MAX_ARTICLES_PER_FEED then MAX_ARTICLES_PER_FEED else n
  }

  function FeedRefs(st: Store, feedID: int): set<Ref> {
    set id | id in st.FeedArticles(feedID) :: st.RefOf(id)
  }

  /** The projection query: the newest k refs of one feed. */
  function ProjectNewest(st: Store, feedID: int, k: nat): seq<Ref> {
    Take(Listing(FeedRefs(st, feedID)), k)
  }

  function FeedsAsked(userFeeds: seq<int>, feedID: int): seq<int> {
    if feedID == 0 then userFeeds else if feedID in userFeeds then [feedID] else []
  }

  /** The feeds whose projection query succeeds. */
  function Answering(feedIDs: seq<int>, failed: set<int>): set<int> {
    set f | f in feedIDs && f !in failed
  }

  /** What the projections of `feeds` contain together. */
  ghost function Gathered(st: Store, feeds: set<int>, k: nat): set<Ref> {
    set f, r | f in feeds && r in ProjectNewest(st, f, k) :: r
  }

  lemma {:induction false} ProjectionIsStored(st: Store, feedID: int, k: nat)
    ensures Distinct(ProjectNewest(st, feedID, k))
    ensures forall r :: r in ProjectNewest(st, feedID, k) ==>
      r.id in st.articles && st.articles[r.id].feedID == feedID && st.RefOf(r.id) == r
  {
    var s := ProjectNewest(st, feedID, k);
    forall r | r in s ensures r.id in st.articles && st.articles[r.id].feedID == feedID && st.RefOf(r.id) == r {
      assert r in Listing(FeedRefs(st, feedID));
    }
  }

  ghost predicate GatheredAt(st: Store, feedIDs: seq<int>, at: set<int>, k: nat, failed: set<int>, r: Ref) {
    exists j :: j in at && 0 <= j < |feedIDs| && feedIDs[j] !in failed && r in ProjectNewest(st, feedIDs[j], k)
  }

  lemma {:induction false} RepliesAreDisjoint(st: Store, feedIDs: seq<int>, at: set<int>, k: nat,
                                              failed: set<int>, j: nat)
    requires Distinct(feedIDs) && j < |feedIDs| && j !in at
    ensures Distinct(ProjectNewest(st, feedIDs[j], k))
    ensures forall r :: r in ProjectNewest(st, feedIDs[j], k) ==> !GatheredAt(st, feedIDs, at, k, failed, r)
  {
    ProjectionIsStored(st, feedIDs[j], k);
    forall r | r in ProjectNewest(st, feedIDs[j], k)
      ensures !GatheredAt(st, feedIDs, at, k, failed, r)
    {
      if GatheredAt(st, feedIDs, at, k, failed, r) {
        var l :| l in at && 0 <= l < |feedIDs| && feedIDs[l] !in failed && r in ProjectNewest(st, feedIDs[l], k);
        assert feedIDs[l] != feedIDs[j];
        ProjectionIsStored(st, feedIDs[l], k);
      }
    }
  }

  /** Pass 1. Feeds are asked in batches of five; within a batch the replies arrive in any order,
      and a failed query contributes nothing. */
  method GatherRefs(st: Store, feedIDs: seq<int>, perFeed: nat, failed: set<int>) returns (allRefs: seq<Ref>)
    requires Distinct(feedIDs)
    ensures Distinct(allRefs)
    ensures forall r :: r in allRefs <==> r in Gathered(st, Answering(feedIDs, failed), perFeed)
  {
    allRefs := [];
    ghost var delivered: set<int> := {};
    var i := 0;
    while i < |feedIDs|
      invariant delivered == Range(0, Min(i, |feedIDs|))
      invariant Distinct(allRefs)
      invariant forall r :: r in allRefs <==> GatheredAt(st, feedIDs, delivered, perFeed, failed, r)
    {
      var end := Min(i + FEED_BATCH_SIZE, |feedIDs|);
      var pending := Range(i, end);
      while pending != {}
        invariant pending <= Range(i, end)
        invariant delivered == Range(0, end) - pending
        invariant Distinct(allRefs)
        invariant forall r :: r in allRefs <==> GatheredAt(st, feedIDs, delivered, perFeed, failed, r)
      {
        var j := AnyOf(pending);  // whichever goroutine sends next
        pending := pending - {j};
        if feedIDs[j] !in failed {
          var refs := ProjectNewest(st, feedIDs[j], perFeed);
          RepliesAreDisjoint(st, feedIDs, delivered, perFeed, failed, j);
          DistinctConcat(allRefs, refs);
          allRefs := allRefs + refs;
        }
        delivered := delivered + {j};
      }
      i := i + FEED_BATCH_SIZE;
    }
    forall r ensures r in allRefs <==> r in Gathered(st, Answering(feedIDs, failed), perFeed) {
      if r in Gathered(st, Answering(feedIDs, failed), perFeed) {
        var f :| f in feedIDs && f !in failed && r in ProjectNewest(st, f, perFeed);
        var j :| 0 <= j < |feedIDs| && feedIDs[j] == f;
        assert j in delivered;
      }
    }
  }

  function InsertRef(r: Ref, s: seq<Ref>): (t: seq<Ref>)
    ensures multiset(t) == multiset(s) + multiset{r}
  {
    if s == [] || Before(r, s[0]) then
      assert multiset([r] + s) == multiset{r} + multiset(s);
      [r] + s
    else
      assert s == [s[0]] + s[1..];
      [s[0]] + InsertRef(r, s[1..])
  }

  ghost predicate InOrder(s: seq<Ref>) {
    forall i, j :: 0 <= i < j < |s| ==> !Before(s[j], s[i])
  }

  lemma {:induction false} InsertKeepsOrder(r: Ref, s: seq<Ref>)
    requires InOrder(s)
    ensures InOrder(InsertRef(r, s))
  {
    if s != [] && !Before(r, s[0]) {
      InsertKeepsOrder(r, s[1..]);
      var t := InsertRef(r, s[1..]);
      forall x | x in t ensures !Before(x, s[0]) {
        assert x in multiset(t);
        assert x == r || x in s[1..];
      }
    }
  }

  /** sort.Slice with the pager's comparator: some ordered permutation of its input. */
  method SortRefs(refs: seq<Ref>) returns (sorted: seq<Ref>)
    ensures multiset(sorted) == multiset(refs) && InOrder(sorted)
  {
    if refs == [] {
      sorted := [];
    } else {
      var rest := SortRefs(refs[1..]);
      InsertKeepsOrder(refs[0], rest);
      sorted := InsertRef(refs[0], rest);
      assert refs == [refs[0]] + refs[1..];
    }
  }

  /** However the replies arrived, sorting them gives the one listing of what was gathered. */
  lemma {:induction false} SortedGatherIsListing(allRefs: seq<Ref>, sorted: seq<Ref>, S: set<Ref>)
    requires Distinct(allRefs) && multiset(sorted) == multiset(allRefs) && InOrder(sorted)
    requires forall r :: r in allRefs <==> r in S
    ensures sorted == Listing(S)
  {
    PermutedDistinct(allRefs, sorted);
    ListingUnique(sorted, Listing(S), S);
  }

  // ---------------------------------------------------------------------------------------
  // Behind the sort: cursor scan, candidate window, status filter, next cursor.
  // ---------------------------------------------------------------------------------------

  /** Position of the first ref behind c, or |refs| when there is none. */
  function FirstBehind(refs: seq<Ref>, c: Ref): (k: nat)
    ensures k <= |refs|
    ensures k < |refs| ==> Before(c, refs[k])
    ensures forall i :: 0 <= i < k ==> !Before(c, refs[i])
  {
    if refs == [] || Before(c, refs[0]) then 0 else 1 + FirstBehind(refs[1..], c)
  }

  /** Where a page starts: behind the cursor's position, or at 0 when nothing lies behind it. */
  function StartIndex(refs: seq<Ref>, pos: Option<Ref>): (k: nat)
    ensures k <= |refs|
  {
    if pos.None? then 0 else
      var k := FirstBehind(refs, pos.value);
      if k < |refs| then k else 0
  }

  method ScanForStart(refs: seq<Ref>, pos: Option<Ref>) returns (startIdx: nat)
    ensures startIdx == StartIndex(refs, pos)
  {
    startIdx := 0;
    if pos.Some? {
      var i := 0;
      while i < |refs|
        invariant 0 <= i <= |refs|
        invariant forall k :: 0 <= k < i ==> !Before(pos.value, refs[k])
      {
        if Before(pos.value, refs[i]) {
          startIdx := i;
          break;
        }
        i := i + 1;
      }
    }
  }

  /** The window of refs a page is chosen from. */
  function CandidateCount(remaining: nat, limit: nat, unreadOnly: bool): nat {
    Min(if unreadOnly then CapAtFeedMax(limit * 2) else limit, remaining)
  }

  function Candidates(remaining: seq<Ref>, limit: nat, unreadOnly: bool): seq<Ref> {
    remaining[..CandidateCount(|remaining|, limit, unreadOnly)]
  }

  predicate Kept(unreadOnly: bool, seenRead: set<int>, r: Ref) {
    unreadOnly ==> r.id !in seenRead
  }

  function KeepUnread(refs: seq<Ref>, unreadOnly: bool, seenRead: set<int>): seq<Ref> {
    if refs == [] then [] else
      var n := |refs| - 1;
      var kept := KeepUnread(refs[..n], unreadOnly, seenRead);
      if Kept(unreadOnly, seenRead, refs[n]) then kept + [refs[n]] else kept
  }

  lemma {:induction false} KeepUnreadMembers(refs: seq<Ref>, unreadOnly: bool, seenRead: set<int>)
    ensures |KeepUnread(refs, unreadOnly, seenRead)| <= |refs|
    ensures forall r :: r in KeepUnread(refs, unreadOnly, seenRead) <==> r in refs && Kept(unreadOnly, seenRead, r)
  {
    if refs != [] {
      var n := |refs| - 1;
      KeepUnreadMembers(refs[..n], unreadOnly, seenRead);
      assert refs == refs[..n] + [refs[n]];
    }
  }

  function PageRefs(remaining: seq<Ref>, limit: nat, unreadOnly: bool, seenRead: set<int>): seq<Ref> {
    Take(KeepUnread(Candidates(remaining, limit, unreadOnly), unreadOnly, seenRead), limit)
  }

  predicate HasNext(remaining: nat, window: nat, limit: nat, page: nat) {
    0 < page == limit && (window > page || remaining > window)
  }

  /** The ref the next cursor is printed from, if there is to be one. */
  function NextRef(remaining: seq<Ref>, limit: nat, unreadOnly: bool, page: seq<Ref>): Option<Ref> {
    if HasNext(|remaining|, CandidateCount(|remaining|, limit, unreadOnly), limit, |page|)
    then Some(page[|page| - 1])
    else None
  }

  lemma {:induction false} KeepUnreadSplit(a: seq<Ref>, b: seq<Ref>, unreadOnly: bool, seenRead: set<int>)
    ensures KeepUnread(a + b, unreadOnly, seenRead)
         == KeepUnread(a, unreadOnly, seenRead) + KeepUnread(b, unreadOnly, seenRead)
  {
    if b == [] {
      assert a + b == a;
    } else {
      var n := |b| - 1;
      KeepUnreadSplit(a, b[..n], unreadOnly, seenRead);
      assert (a + b)[..|a + b| - 1] == a + b[..n];
    }
  }

  method ChoosePage(candidates: seq<Ref>, limit: nat, unreadOnly: bool, seenRead: set<int>) returns (page: seq<Ref>)
    requires limit > 0
    ensures page == Take(KeepUnread(candidates, unreadOnly, seenRead), limit)
  {
    page := [];
    var i := 0;
    while i < |candidates|
      invariant 0 <= i <= |candidates|
      invariant page == KeepUnread(candidates[..i], unreadOnly, seenRead) && |page| < limit
    {
      assert candidates[..i + 1][..i] == candidates[..i];
      if Kept(unreadOnly, seenRead, candidates[i]) {
        page := page + [candidates[i]];
      }
      i := i + 1;
      if |page| == limit {
        KeepUnreadSplit(candidates[..i], candidates[i..], unreadOnly, seenRead);
        assert candidates == candidates[..i] + candidates[i..];
        return;
      }
    }
    assert candidates[..i] == candidates;
  }

  /** Ids whose status read succeeds and says "read". */
  function SeenRead(st: Store, userID: int, refs: seq<Ref>, failed: set<int>): set<int> {
    set r | r in refs && r.id !in failed && st.IsRead(userID, r.id) :: r.id
  }

  /** Pass 2a: the statuses the batch read returns; missing and failed ones are absent. */
  method FetchStatuses(st: Store, userID: int, candidates: seq<Ref>, failed: set<int>)
    returns (statusMap: map<int, Status>)
    ensures forall r :: r in candidates ==>
      (r.id in statusMap <==> (userID, r.id) in st.statuses && r.id !in failed)
    ensures forall id :: id in statusMap ==>
      (userID, id) in st.statuses && statusMap[id] == st.statuses[(userID, id)]
  {
    statusMap := map[];
    var i := 0;
    while i < |candidates|
      invariant 0 <= i <= |candidates|
      invariant forall k :: 0 <= k < i ==>
        (candidates[k].id in statusMap <==> (userID, candidates[k].id) in st.statuses && candidates[k].id !in failed)
      invariant forall id :: id in statusMap ==>
        id !in failed && (userID, id) in st.statuses && statusMap[id] == st.statuses[(userID, id)]
    {
      var id := candidates[i].id;
      if (userID, id) in st.statuses && id !in failed {
        statusMap := statusMap[id := st.statuses[(userID, id)]];
      }
      i := i + 1;
    }
  }

  /** The page's refs whose entities load, in order. */
  function Loaded(page: seq<Ref>, failed: set<int>): seq<Ref> {
    KeepUnread(page, true, failed)
  }

  lemma {:induction false} KeepAll(refs: seq<Ref>, unreadOnly: bool, seenRead: set<int>)
    requires unreadOnly ==> seenRead == {}
    ensures KeepUnread(refs, unreadOnly, seenRead) == refs
  {
    if refs != [] {
      KeepAll(refs[..|refs| - 1], unreadOnly, seenRead);
    }
  }

  /** The row of a ref: its stored article, less the content, and the statuses found for it. */
  predicate IsRowFor(st: Store, statusMap: map<int, Status>, r: Ref, row: Row) {
    && row.id == r.id && r.id in st.articles && row.article == Summary(st.articles[r.id])
    && (row.isRead <==> r.id in statusMap && statusMap[r.id].isRead)
    && (row.isStarred <==> r.id in statusMap && statusMap[r.id].isStarred)
  }

  /** Pass 2b: full rows for the page's refs, leaving out entities that fail to load. */
  method LoadRows(st: Store, page: seq<Ref>, statusMap: map<int, Status>, failed: set<int>) returns (rows: seq<Row>)
    requires forall r :: r in page ==> r.id in st.articles && st.RefOf(r.id) == r
    ensures |rows| == |Loaded(page, failed)|
    ensures forall k :: 0 <= k < |rows| ==> IsRowFor(st, statusMap, Loaded(page, failed)[k], rows[k])
  {
    rows := [];
    var i := 0;
    while i < |page|
      invariant 0 <= i <= |page| && |rows| == |Loaded(page[..i], failed)|
      invariant forall k :: 0 <= k < |rows| ==> IsRowFor(st, statusMap, Loaded(page[..i], failed)[k], rows[k])
    {
      var id := page[i].id;
      assert page[..i + 1][..i] == page[..i] && page[i] in page;
      if id !in failed {
        rows := rows + [Row(id, Summary(st.articles[id]),
                            id in statusMap && statusMap[id].isRead, id in statusMap && statusMap[id].isStarred)];
      }
      i := i + 1;
    }
    assert page[..i] == page;
  }

  // ---------------------------------------------------------------------------------------
  // The whole request.
  // ---------------------------------------------------------------------------------------

  /** The merged listing a request pages through. */
  ghost function Merged(st: Store, userFeeds: seq<int>, q: Query, failed: set<int>): seq<Ref> {
    Listing(Gathered(st, Answering(FeedsAsked(userFeeds, q.feedID), failed), CapAtFeedMax(q.limit * 2)))
  }

  /** `p` has one row per loadable ref of `page`, in order, with the stored article, less the
      content, and its statuses. */
  ghost predicate ShowsRefs(st: Store, userID: int, page: seq<Ref>, faults: Faults, p: Page) {
    && p.Refs() == Loaded(page, faults.entityReads)
    && forall row :: row in p.articles ==>
         && row.id in st.articles && row.article == Summary(st.articles[row.id])
         && (row.isRead <==> st.IsRead(userID, row.id) && row.id !in faults.statusReads)
         && (row.isStarred <==> st.IsStarred(userID, row.id) && row.id !in faults.statusReads)
  }

  /** `p` answers the request whose merged refs behind the cursor are `remaining`. */
  ghost predicate Shows(st: Store, q: Query, remaining: seq<Ref>, faults: Faults, p: Page) {
    var window := Candidates(remaining, q.limit, q.unreadOnly);
    var page := PageRefs(remaining, q.limit, q.unreadOnly, SeenRead(st, q.userID, window, faults.statusReads));
    && p.nextCursor == CursorFor(NextRef(remaining, q.limit, q.unreadOnly, page))
    && ShowsRefs(st, q.userID, page, faults, p)
  }

  lemma {:induction false} MergedIsStored(st: Store, feeds: set<int>, k: nat)
    ensures forall r :: r in Gathered(st, feeds, k) ==> r.id in st.articles && st.RefOf(r.id) == r
  {
    forall r | r in Gathered(st, feeds, k) ensures r.id in st.articles && st.RefOf(r.id) == r {
      var f :| f in feeds && r in ProjectNewest(st, f, k);
      ProjectionIsStored(st, f, k);
    }
  }

  /** The candidate window, the status filter and the next-cursor decision. */
  method SelectRefs(remaining: seq<Ref>, q: Query, statusMap: map<int, Status>, candidateCount: nat)
    returns (page: seq<Ref>, next: Option<Ref>)
    requires q.limit > 0 && candidateCount == CandidateCount(|remaining|, q.limit, q.unreadOnly)
    ensures var seenRead :=
      set r | r in remaining[..candidateCount] && r.id in statusMap && statusMap[r.id].isRead :: r.id;
      page == PageRefs(remaining, q.limit, q.unreadOnly, seenRead)
    ensures next == NextRef(remaining, q.limit, q.unreadOnly, page)
  {
    var candidates := remaining[..candidateCount];
    var seenRead := set r | r in candidates && r.id in statusMap && statusMap[r.id].isRead :: r.id;
    page := ChoosePage(candidates, q.limit, q.unreadOnly, seenRead);
    next := None;
    if |page| == q.limit {
      if candidateCount > |page| || |remaining| > candidateCount {
        next := Some(page[|page| - 1]);
      }
    }
  }

  lemma {:induction false} RowsShow(st: Store, statusMap: map<int, Status>, shown: seq<Ref>, p: Page)
    requires |p.articles| == |shown|
    requires forall k :: 0 <= k < |shown| ==> IsRowFor(st, statusMap, shown[k], p.articles[k])
    requires forall r :: r in shown ==> r.id in st.articles && st.RefOf(r.id) == r
    ensures p.Refs() == shown
  {
    forall k | 0 <= k < |shown| ensures p.Refs()[k] == shown[k] {
      assert shown[k] in shown;
      assert IsRowFor(st, statusMap, shown[k], p.articles[k]);
    }
  }

  /** Pass 2b for a chosen page: rows joined with the statuses fetched for the candidates. */
  method BuildPage(st: Store, userID: int, candidates: seq<Ref>, page: seq<Ref>, statusMap: map<int, Status>,
                   nextCursor: string, faults: Faults) returns (p: Page)
    requires forall r :: r in page ==> r in candidates && r.id in st.articles && st.RefOf(r.id) == r
    requires forall r :: r in candidates ==>
      (r.id in statusMap <==> (userID, r.id) in st.statuses && r.id !in faults.statusReads)
    requires forall id :: id in statusMap ==> (userID, id) in st.statuses && statusMap[id] == st.statuses[(userID, id)]
    ensures ShowsRefs(st, userID, page, faults, p) && p.nextCursor == nextCursor
  {
    var rows := LoadRows(st, page, statusMap, faults.entityReads);
    p := Page(rows, nextCursor);
    var shown := Loaded(page, faults.entityReads);
    KeepUnreadMembers(page, true, faults.entityReads);
    RowsShow(st, statusMap, shown, p);
    forall row | row in p.articles
      ensures row.id in st.articles && row.article == Summary(st.articles[row.id])
      ensures row.isRead <==> st.IsRead(userID, row.id) && row.id !in faults.statusReads
      ensures row.isStarred <==> st.IsStarred(userID, row.id) && row.id !in faults.statusReads
    {
      var k :| 0 <= k < |rows| && rows[k] == row;
      assert shown[k] in shown && IsRowFor(st, statusMap, shown[k], rows[k]);
    }
  }

  lemma {:induction false} SeenThroughMap(st: Store, userID: int, candidates: seq<Ref>, statusMap: map<int,
                                          Status>, failed: set<int>)
    requires forall r :: r in candidates ==>
      (r.id in statusMap <==> (userID, r.id) in st.statuses && r.id !in failed)
    requires forall id :: id in statusMap ==> (userID, id) in st.statuses && statusMap[id] == st.statuses[(userID, id)]
    ensures (set r | r in candidates && r.id in statusMap && statusMap[r.id].isRead :: r.id)
         == SeenRead(st, userID, candidates, failed)
  {
    var seen := set r | r in candidates && r.id in statusMap && statusMap[r.id].isRead :: r.id;
    forall id ensures id in seen <==> id in SeenRead(st, userID, candidates, failed) {
      if id in seen {
        var r :| r in candidates && r.id in statusMap && statusMap[r.id].isRead && r.id == id;
      }
      if id in SeenRead(st, userID, candidates, failed) {
        var r :| r in candidates && r.id !in failed && st.IsRead(userID, r.id) && r.id == id;
      }
    }
  }

  lemma {:induction false} PageWithinCandidates(remaining: seq<Ref>, limit: nat, unreadOnly: bool, seenRead: set<int>)
    ensures forall r :: r in PageRefs(remaining, limit, unreadOnly, seenRead) ==>
      r in Candidates(remaining, limit, unreadOnly) && r in remaining
  {
    var candidates := Candidates(remaining, limit, unreadOnly);
    var kept := KeepUnread(candidates, unreadOnly, seenRead);
    KeepUnreadMembers(candidates, unreadOnly, seenRead);
    forall r | r in Take(kept, limit) ensures r in kept {
    }
    forall r | r in candidates ensures r in remaining {
    }
  }

  /** From the merged refs behind the cursor to the answer. */
  method AnswerFrom(st: Store, q: Query, remaining: seq<Ref>, faults: Faults) returns (p: Page)
    requires q.limit > 0
    requires forall r :: r in remaining ==> r.id in st.articles && st.RefOf(r.id) == r
    ensures Shows(st, q, remaining, faults, p)
  {
    var candidateCount := if q.unreadOnly then CapAtFeedMax(q.limit * 2) else q.limit;
    if candidateCount > |remaining| {
      candidateCount := |remaining|;
    }
    var candidates := remaining[..candidateCount];
    var statusMap := FetchStatuses(st, q.userID, candidates, faults.statusReads);
    ghost var seenRead := SeenRead(st, q.userID, candidates, faults.statusReads);
    SeenThroughMap(st, q.userID, candidates, statusMap, faults.statusReads);
    var page, next := SelectRefs(remaining, q, statusMap, candidateCount);
    PageWithinCandidates(remaining, q.limit, q.unreadOnly, seenRead);
    p := BuildPage(st, q.userID, candidates, page, statusMap, CursorFor(next), faults);
  }

  /** What a request answers: nothing without feeds, else the page behind the cursor. */
  ghost predicate Answers(st: Store, userFeeds: seq<int>, q: Query, cursor: string, faults: Faults, p: Page)
    requires FeedsAsked(userFeeds, q.feedID) == [] || ValidCursor(cursor)
  {
    if FeedsAsked(userFeeds, q.feedID) == [] then p == Page([], "") else
      var merged := Merged(st, userFeeds, q, faults.feedQueries);
      Shows(st, q, merged[StartIndex(merged, Position(cursor))..], faults, p)
  }

  /** The request. `userFeeds` are the user's feeds in the order the database lists them. The
      answer is the same for every order in which feed replies arrive. */
  method GetUserArticlesPaginated(st: Store, userFeeds: seq<int>, q: Query, cursor: string, faults: Faults)
    returns (r: Result<Page>)
    requires q.limit > 0 && Distinct(userFeeds)
    ensures r.Ok? <==> FeedsAsked(userFeeds, q.feedID) == [] || ValidCursor(cursor)
    ensures r.Ok? ==> Answers(st, userFeeds, q, cursor, faults, r.value)
  {
    var feeds := FeedsAsked(userFeeds, q.feedID);
    if feeds == [] {
      return Ok(Page([], ""));
    }
    var articlesPerFeed := CapAtFeedMax(q.limit * 2);
    ghost var gathered := Gathered(st, Answering(feeds, faults.feedQueries), articlesPerFeed);
    var allRefs := GatherRefs(st, feeds, articlesPerFeed, faults.feedQueries);
    var sorted := SortRefs(allRefs);
    SortedGatherIsListing(allRefs, sorted, gathered);

    if !ValidCursor(cursor) {
      return Err("invalid cursor");
    }
    var startIdx := ScanForStart(sorted, Position(cursor));
    var remaining := sorted[startIdx..];
    MergedIsStored(st, Answering(feeds, faults.feedQueries), articlesPerFeed);
    assert forall x :: x in remaining ==> x in sorted;
    var page := AnswerFrom(st, q, remaining, faults);
    r := Ok(page);
  }
}
