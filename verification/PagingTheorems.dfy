/** What the Datastore pager's cap, cursor and candidate window mean for whole runs, and where it
    agrees with the SQLite pager. */
module PagingTheorems {
  import opened Results
  import opened Collections
  import opened Timeline
  import opened ArticleStore
  import opened Pages
  import opened DatastorePager
  import Cursor
  import SqlitePager

  // ---------------------------------------------------------------------------------------
  // The k-way merge: truncated per-feed lists against the full global order.
  // ---------------------------------------------------------------------------------------

  /** Every article of the given feeds, untruncated. */
  ghost function GlobalRefs(st: Store, feeds: set<int>): set<Ref> {
    set f, r | f in feeds && r in FeedRefs(st, f) :: r
  }

  /** An element's position in a part's listing is at most its position in the whole listing. */
  lemma {:induction false} RankInPart(s: seq<Ref>, S: set<Ref>, g: seq<Ref>, G: set<Ref>, j: nat, i: nat)
    requires Lists(s, S) && Lists(g, G) && S <= G
    requires j < |s| && i < |g| && s[j] == g[i]
    ensures j <= i
  {
    forall r | r in SetOf(s[..j]) ensures r in SetOf(g[..i]) {
      var l :| 0 <= l < j && s[l] == r;
      assert r in G;
      var m :| 0 <= m < |g| && g[m] == r;
      assert m < i;
      assert g[..i][m] == r;
    }
    CardinalityOfDescending(s[..j]);
    CardinalityOfDescending(g[..i]);
    SubsetCardinality(SetOf(s[..j]), SetOf(g[..i]));
  }

  lemma {:induction false} GatheredIsGlobal(st: Store, feeds: set<int>, k: nat)
    ensures Gathered(st, feeds, k) <= GlobalRefs(st, feeds)
  {
    forall r | r in Gathered(st, feeds, k) ensures r in GlobalRefs(st, feeds) {
      var f :| f in feeds && r in ProjectNewest(st, f, k);
      assert r in Listing(FeedRefs(st, f));
    }
  }

  lemma {:induction false} InProjection(st: Store, f: int, k: nat, j: nat)
    requires j < |Listing(FeedRefs(st, f))|
    ensures Listing(FeedRefs(st, f))[j] in ProjectNewest(st, f, k) <==> j < k
  {
    var s := Listing(FeedRefs(st, f));
    var taken := ProjectNewest(st, f, k);
    if j < k {
      assert taken[j] == s[j];
    } else {
      forall l | 0 <= l < |taken| ensures taken[l] != s[j] {
        assert taken[l] == s[l] && Before(s[l], s[j]);
      }
    }
  }

  lemma {:induction false} NewestAreGathered(st: Store, feeds: set<int>, k: nat, i: nat)
    requires i < k && i < |Listing(GlobalRefs(st, feeds))|
    ensures Listing(GlobalRefs(st, feeds))[i] in Gathered(st, feeds, k)
  {
    var g := Listing(GlobalRefs(st, feeds));
    assert g[i] in GlobalRefs(st, feeds);
    var f :| f in feeds && g[i] in FeedRefs(st, f);
    var s := Listing(FeedRefs(st, f));
    var j :| 0 <= j < |s| && s[j] == g[i];
    RankInPart(s, FeedRefs(st, f), g, GlobalRefs(st, feeds), j, i);
    InProjection(st, f, k, j);
  }

  lemma {:induction false} SamePrefixSameTake(s: seq<Ref>, g: seq<Ref>, k: nat)
    requires Min(k, |g|) <= |s| <= |g| && s[..Min(k, |g|)] == g[..Min(k, |g|)]
    ensures Take(s, k) == Take(g, k)
  {
    if |g| < k {
      assert s == s[..|g|] && g == g[..|g|];
    }
  }

  lemma {:induction false} SmallerListing(s: seq<Ref>, S: set<Ref>, g: seq<Ref>, G: set<Ref>)
    requires Lists(s, S) && Lists(g, G) && S <= G
    ensures |s| <= |g|
  {
    CardinalityOfDescending(s);
    CardinalityOfDescending(g);
    assert SetOf(s) == S && SetOf(g) == G;
    SubsetCardinality(S, G);
  }

  /** Merge exactness: although each feed is cut to its newest k articles, the first k places of
      the merged listing are the first k places of the full global order. */
  lemma {:induction false} MergeIsExactToRank(st: Store, feeds: set<int>, k: nat, merged: seq<Ref>, global: seq<Ref>)
    requires Lists(merged, Gathered(st, feeds, k)) && Lists(global, GlobalRefs(st, feeds))
    ensures Take(merged, k) == Take(global, k)
    ensures |merged| <= |global|
  {
    var n := Min(k, |global|);
    GatheredIsGlobal(st, feeds, k);
    ListingUnique(global, Listing(GlobalRefs(st, feeds)), GlobalRefs(st, feeds));
    forall i | 0 <= i < n ensures global[i] in Gathered(st, feeds, k) {
      NewestAreGathered(st, feeds, k, i);
    }
    PrefixStable(global, GlobalRefs(st, feeds), merged, Gathered(st, feeds, k), n);
    SmallerListing(merged, Gathered(st, feeds, k), global, GlobalRefs(st, feeds));
    SamePrefixSameTake(merged, global, k);
  }

  /** How deep paging can reach: an article is in the merged listing exactly when fewer than k
      articles of its own feed come before it. */
  lemma {:induction false} DepthLimit(st: Store, feeds: set<int>, k: nat, f: int, r: Ref)
    requires f in feeds && r in FeedRefs(st, f)
    ensures r in Listing(Gathered(st, feeds, k))
       <==> |set x | x in FeedRefs(st, f) && Before(x, r)| < k
  {
    var s := Listing(FeedRefs(st, f));
    var j :| 0 <= j < |s| && s[j] == r;
    RankIsCount(s, FeedRefs(st, f), j);
    InProjection(st, f, k, j);
    if r in Gathered(st, feeds, k) {
      var f' :| f' in feeds && r in ProjectNewest(st, f', k);
      ProjectionIsStored(st, f', k);
      assert f' == f;
    }
  }

  ghost predicate OnlyFeed(st: Store, feeds: set<int>, f: int) {
    forall g :: g in feeds && g != f ==> FeedRefs(st, g) == {}
  }

  /** One feed alone holds articles, and more of them than the cap. */
  ghost predicate OneFeedBeyondCap(st: Store, feeds: set<int>, k: nat) {
    exists f :: f in feeds && |FeedRefs(st, f)| > k && OnlyFeed(st, feeds, f)
  }

  lemma {:induction false} ListingSize(s: seq<Ref>, S: set<Ref>)
    requires Lists(s, S)
    ensures |s| == |S|
  {
    CardinalityOfDescending(s);
    SameSet(SetOf(s), S);
  }

  lemma {:induction false} OneFeedIsCut(st: Store, feeds: set<int>, k: nat, f: int)
    requires f in feeds && OnlyFeed(st, feeds, f) && |FeedRefs(st, f)| > k
    ensures |Gathered(st, feeds, k)| == k && |GlobalRefs(st, feeds)| > k
  {
    var taken := ProjectNewest(st, f, k);
    ListingSize(Listing(FeedRefs(st, f)), FeedRefs(st, f));
    forall g | g in feeds && g != f ensures ProjectNewest(st, g, k) == [] {
      ListingSize(Listing(FeedRefs(st, g)), FeedRefs(st, g));
    }
    forall r ensures r in SetOf(taken) <==> r in Gathered(st, feeds, k) {
    }
    SameSet(SetOf(taken), Gathered(st, feeds, k));
    CardinalityOfDescending(taken);
    SameSet(FeedRefs(st, f), GlobalRefs(st, feeds));
  }

  /** The refs of a listing before its k-th one are its first k. */
  lemma {:induction false} BeforeIsFront(full: seq<Ref>, S: set<Ref>, k: nat, part: set<Ref>)
    requires Lists(full, S) && k < |full| && part <= S && forall x :: x in part ==> Before(x, full[k])
    ensures part <= SetOf(full[..k]) && |SetOf(full[..k])| == k && full[k] !in full[..k]
  {
    forall x | x in part ensures x in SetOf(full[..k]) {
      var i :| 0 <= i < |full| && full[i] == x;
      assert full[..k][i] == x;
    }
    CardinalityOfDescending(full[..k]);
  }

  /** An article hidden by the cap is older than k others of its own feed; these are the first k. */
  lemma {:induction false} HiddenByOwnFeed(st: Store, feeds: set<int>, k: nat, full: seq<Ref>, f: int)
    requires Lists(full, GlobalRefs(st, feeds)) && k < |full| && f in feeds && full[k] in FeedRefs(st, f)
    requires full[k] !in Listing(Gathered(st, feeds, k))
    ensures |FeedRefs(st, f)| > k && forall x :: x in full[..k] ==> x in FeedRefs(st, f)
  {
    var r := full[k];
    var newer := set x | x in FeedRefs(st, f) && Before(x, r);
    DepthLimit(st, feeds, k, f, r);
    assert newer <= GlobalRefs(st, feeds);
    BeforeIsFront(full, GlobalRefs(st, feeds), k, newer);
    SameSizeSubset(newer, SetOf(full[..k]));
    SubsetCardinality(newer + {r}, FeedRefs(st, f));
  }

  /** A feed that holds an article has its newest one merged. */
  lemma {:induction false} NewestIsMerged(st: Store, feeds: set<int>, k: nat, g: int) returns (y: Ref)
    requires k > 0 && g in feeds && FeedRefs(st, g) != {}
    ensures y in FeedRefs(st, g) && y in Gathered(st, feeds, k)
  {
    var s := Listing(FeedRefs(st, g));
    ListingSize(s, FeedRefs(st, g));
    y := s[0];
    InProjection(st, g, k, 0);
  }

  /** The cap leaves something out of a merged listing no longer than itself exactly when one feed alone
      holds articles and it has more than the cap. */
  lemma {:induction false} CapHidesArticlesExactly(st: Store, feeds: set<int>, k: nat, merged: seq<Ref>, full: seq<Ref>)
    requires k > 0 && Lists(merged, Gathered(st, feeds, k)) && Lists(full, GlobalRefs(st, feeds))
    ensures |merged| <= k < |full| <==> OneFeedBeyondCap(st, feeds, k)
  {
    ListingSize(merged, Gathered(st, feeds, k));
    ListingSize(full, GlobalRefs(st, feeds));
    if f :| f in feeds && |FeedRefs(st, f)| > k && OnlyFeed(st, feeds, f) {
      OneFeedIsCut(st, feeds, k, f);
    }
    if |merged| <= k < |full| {
      MergeIsExactToRank(st, feeds, k, merged, full);
      assert merged == Take(merged, k) == full[..k];
      assert full[k] in GlobalRefs(st, feeds);
      var f :| f in feeds && full[k] in FeedRefs(st, f);
      BeforeIsFront(full, GlobalRefs(st, feeds), k, {});
      HiddenByOwnFeed(st, feeds, k, full, f);
      forall g | g in feeds && g != f ensures FeedRefs(st, g) == {} {
        if FeedRefs(st, g) != {} {
          var y := NewestIsMerged(st, feeds, k, g);
        }
      }
    }
  }

  /** A feed of three articles with limit 1: the oldest is never merged. */
  lemma {:induction false} OldestIsOutOfReach() returns (st: Store)
    ensures FeedRefs(st, 1) == {Ref(3, 30), Ref(2, 20), Ref(1, 10)}
    ensures Ref(1, 10) !in Listing(Gathered(st, {1}, CapAtFeedMax(1 * 2)))
  {
    var a := Article(1, "", "", "", "", "", 10, 0);
    st := Store(map[1 := a, 2 := a.(publishedAt := 20), 3 := a.(publishedAt := 30)], {}, map[]);
    forall r ensures r in FeedRefs(st, 1) <==> r in {Ref(3, 30), Ref(2, 20), Ref(1, 10)} {
      if r in {Ref(3, 30), Ref(2, 20), Ref(1, 10)} {
        assert r.id in st.FeedArticles(1) && st.RefOf(r.id) == r;
      }
    }
    SameSet(FeedRefs(st, 1), {Ref(3, 30), Ref(2, 20), Ref(1, 10)});
    SameSet(set x | x in FeedRefs(st, 1) && Before(x, Ref(1, 10)), {Ref(3, 30), Ref(2, 20)});
    DepthLimit(st, {1}, 2, 1, Ref(1, 10));
  }

  // ---------------------------------------------------------------------------------------
  // Following cursors on an unchanged store, all articles.
  // ---------------------------------------------------------------------------------------

  /** Where the position refs[p] leads: to p+1, or back to 0 when refs[p] is the last. */
  lemma {:induction false} PositionLeadsTo(refs: seq<Ref>, p: nat)
    requires Descending(refs) && p < |refs|
    ensures StartIndex(refs, Some(refs[p])) == if p + 1 < |refs| then p + 1 else 0
  {
    assert p + 1 < |refs| ==> Before(refs[p], refs[p + 1]);
  }

  lemma {:induction false} AllArticlesPage(remaining: seq<Ref>, limit: nat, seenRead: set<int>)
    requires limit > 0
    ensures PageRefs(remaining, limit, false, seenRead) == Take(remaining, limit)
    ensures NextRef(remaining, limit, false, Take(remaining, limit))
         == if |remaining| > limit then Some(remaining[limit - 1]) else None
  {
    KeepAll(Candidates(remaining, limit, false), false, seenRead);
  }

  /** The refs and next position a request for all articles gets, starting at index `start`. */
  function AnswerFromIndex(refs: seq<Ref>, limit: nat, start: nat): Answer
    requires start <= |refs|
  {
    var page := PageRefs(refs[start..], limit, false, {});
    Answer(page, NextRef(refs[start..], limit, false, page))
  }

  /** A client following positions: each request continues from the one the answer before gave. */
  ghost predicate IsRun(refs: seq<Ref>, limit: nat, pos: Option<Ref>, answers: seq<Answer>)
    decreases |answers|
  {
    && answers != []
    && answers[0] == AnswerFromIndex(refs, limit, StartIndex(refs, pos))
    && (|answers| > 1 ==> answers[0].next.Some? && IsRun(refs, limit, answers[0].next, answers[1..]))
  }

  /** `a` holds the next `limit` refs from index `start` on, and a position when more follow. */
  ghost predicate IsSlice(refs: seq<Ref>, limit: nat, start: nat, a: Answer) {
    && start <= |refs|
    && a.refs == refs[start..Min(start + limit, |refs|)]
    && (a.next.Some? <==> |refs| - start > limit)
  }

  /** The same run told by indices: each answer starts `limit` refs behind the one before. */
  ghost predicate Strides(refs: seq<Ref>, limit: nat, start: nat, answers: seq<Answer>)
    decreases |answers|
  {
    && answers != [] && IsSlice(refs, limit, start, answers[0])
    && (|answers| > 1 ==> answers[0].next.Some? && Strides(refs, limit, start + limit, answers[1..]))
  }

  /** An emitted position resolves to the index right behind its page; the fallback to index 0
      never fires. */
  lemma {:induction false} NextResumesBehindPage(refs: seq<Ref>, limit: nat, start: nat)
    requires limit > 0 && Descending(refs) && start <= |refs|
    ensures var a := AnswerFromIndex(refs, limit, start);
      && IsSlice(refs, limit, start, a)
      && (a.next.Some? ==> StartIndex(refs, a.next) == start + limit)
  {
    AllArticlesPage(refs[start..], limit, {});
    if |refs| - start > limit {
      PositionLeadsTo(refs, start + limit - 1);
    }
  }

  lemma {:induction false} RunStrides(refs: seq<Ref>, limit: nat, pos: Option<Ref>, answers: seq<Answer>)
    requires limit > 0 && Descending(refs) && IsRun(refs, limit, pos, answers)
    ensures Strides(refs, limit, StartIndex(refs, pos), answers)
    decreases |answers|
  {
    NextResumesBehindPage(refs, limit, StartIndex(refs, pos));
    if |answers| > 1 {
      RunStrides(refs, limit, answers[0].next, answers[1..]);
    }
  }

  lemma {:induction false} SliceThenPrefix(refs: seq<Ref>, a: nat, b: nat, done: seq<Ref>)
    requires a <= b <= |refs| && done <= refs[b..]
    ensures refs[a..b] + done <= refs[a..]
    ensures done == refs[b..] <==> refs[a..b] + done == refs[a..]
  {
    assert refs[a..] == refs[a..b] + refs[b..];
    assert |refs[a..b] + done| == |refs[a..]| ==> |done| == |refs[b..]|;
  }

  lemma {:induction false} LastAnswer(refs: seq<Ref>, limit: nat, start: nat, a: Answer)
    requires limit > 0 && IsSlice(refs, limit, start, a)
    ensures a.refs + [] <= refs[start..]
    ensures a.next.None? <==> a.refs + [] == refs[start..]
  {
    assert a.refs + [] == a.refs;
  }

  lemma {:induction false} StridesPartition(refs: seq<Ref>, limit: nat, start: nat, answers: seq<Answer>)
    requires limit > 0 && Strides(refs, limit, start, answers)
    ensures Delivered(answers) <= refs[start..]
    ensures answers[|answers| - 1].next.None? <==> Delivered(answers) == refs[start..]
    decreases |answers|
  {
    var tail := answers[1..];
    if |answers| > 1 {
      StridesPartition(refs, limit, start + limit, tail);
      SliceThenPrefix(refs, start, start + limit, Delivered(tail));
    } else {
      assert tail == [];
      LastAnswer(refs, limit, start, answers[0]);
    }
  }

  lemma {:induction false} StridesAreShort(refs: seq<Ref>, limit: nat, start: nat, answers: seq<Answer>)
    requires limit > 0 && Strides(refs, limit, start, answers)
    ensures |answers| == 1 || |answers| <= |refs| - start
    decreases |answers|
  {
    if |answers| > 1 {
      StridesAreShort(refs, limit, start + limit, answers[1..]);
    }
  }

  /** The pages of a run are consecutive slices of the merged listing: nothing is repeated or
      skipped, a run is finished exactly when its last answer gives no position, and it takes no
      more answers than there were refs. */
  lemma {:induction false} RunPartitions(refs: seq<Ref>, limit: nat, pos: Option<Ref>, answers: seq<Answer>)
    requires limit > 0 && Descending(refs) && IsRun(refs, limit, pos, answers)
    ensures Delivered(answers) <= refs[StartIndex(refs, pos)..]
    ensures answers[|answers| - 1].next.None? <==> Delivered(answers) == refs[StartIndex(refs, pos)..]
    ensures |answers| == 1 || |answers| <= |refs| - StartIndex(refs, pos)
  {
    RunStrides(refs, limit, pos, answers);
    StridesPartition(refs, limit, StartIndex(refs, pos), answers);
    StridesAreShort(refs, limit, StartIndex(refs, pos), answers);
  }

  /** Following positions terminates: the refs left behind the position are the measure. */
  lemma {:induction false} RunEnds(refs: seq<Ref>, limit: nat, pos: Option<Ref>) returns (answers: seq<Answer>)
    requires limit > 0 && Descending(refs)
    ensures IsRun(refs, limit, pos, answers) && answers[|answers| - 1].next.None?
    decreases |refs| - StartIndex(refs, pos)
  {
    NextResumesBehindPage(refs, limit, StartIndex(refs, pos));
    var a := AnswerFromIndex(refs, limit, StartIndex(refs, pos));
    if a.next.None? {
      answers := [a];
    } else {
      var rest := RunEnds(refs, limit, a.next);
      answers := [a] + rest;
      assert answers[1..] == rest;
    }
  }

  // The same for the pages and cursor texts a client really sees.

  ghost predicate AllEncodable(refs: seq<Ref>) {
    forall r :: r in refs ==> Cursor.Encodable(r)
  }

  ghost predicate IsClientRun(st: Store, userFeeds: seq<int>, q: Query, cursor: string, pages: seq<Page>)
    decreases |pages|
  {
    && pages != [] && ValidCursor(cursor)
    && Answers(st, userFeeds, q, cursor, NO_FAULTS, pages[0])
    && (|pages| > 1 ==>
          pages[0].nextCursor != "" && IsClientRun(st, userFeeds, q, pages[0].nextCursor, pages[1..]))
  }

  /** A page of all articles is the first `limit` refs of what remains. */
  lemma {:induction false} ShowsAllArticles(st: Store, q: Query, remaining: seq<Ref>, p: Page)
    requires q.limit > 0 && !q.unreadOnly && Shows(st, q, remaining, NO_FAULTS, p)
    ensures p.Refs() == Take(remaining, q.limit) && ShowsRefs(st, q.userID, Take(remaining, q.limit), NO_FAULTS, p)
    ensures p.nextCursor == CursorFor(if |remaining| > q.limit then Some(remaining[q.limit - 1]) else None)
  {
    AllArticlesPage(remaining, q.limit, SeenRead(st, q.userID, Candidates(remaining, q.limit, false), {}));
    KeepAll(Take(remaining, q.limit), true, {});
  }

  lemma {:induction false} AnswerShape(refs: seq<Ref>, limit: nat, start: nat)
    requires limit > 0 && start <= |refs|
    ensures var remaining := refs[start..];
      AnswerFromIndex(refs, limit, start)
        == Answer(Take(remaining, limit), if |remaining| > limit then Some(remaining[limit - 1]) else None)
  {
    AllArticlesPage(refs[start..], limit, {});
  }

  lemma {:induction false} PageIsAnswer(st: Store, q: Query, merged: seq<Ref>, start: nat, p: Page)
    requires q.limit > 0 && !q.unreadOnly && AllEncodable(merged) && start <= |merged|
    requires Shows(st, q, merged[start..], NO_FAULTS, p)
    ensures var a := AnswerFromIndex(merged, q.limit, start);
      && p.Refs() == a.refs && p.nextCursor == CursorFor(a.next)
      && ValidCursor(p.nextCursor) && Position(p.nextCursor) == a.next
  {
    ShowsAllArticles(st, q, merged[start..], p);
    AnswerShape(merged, q.limit, start);
    var next := AnswerFromIndex(merged, q.limit, start).next;
    if next.Some? {
      assert next.value in merged;
    }
    CursorForPosition(next);
  }

  /** A page in front of a run of pages, and its answer in front of theirs. */
  lemma {:induction false} PageThenRun(refs: seq<Ref>, limit: nat, pos: Option<Ref>, a: Answer, pages: seq<Page>,
                                       rest: seq<Answer>)
    requires pages != [] && a == AnswerFromIndex(refs, limit, StartIndex(refs, pos))
    requires pages[0].Refs() == a.refs && (pages[0].nextCursor == "" <==> a.next.None?)
    requires |rest| == |pages| - 1 && Delivered(rest) == Seen(pages[1..])
    requires rest != [] ==> a.next.Some? && IsRun(refs, limit, a.next, rest)
    requires rest != [] ==> (rest[|rest| - 1].next.None? <==> pages[|pages| - 1].nextCursor == "")
    ensures var answers := [a] + rest;
      && IsRun(refs, limit, pos, answers) && |answers| == |pages| && Delivered(answers) == Seen(pages)
      && (answers[|answers| - 1].next.None? <==> pages[|pages| - 1].nextCursor == "")
  {
    assert ([a] + rest)[1..] == rest;
  }

  /** The answer a request gets, as a page. */
  ghost predicate IsAnswerPage(merged: seq<Ref>, q: Query, cursor: string, p: Page, a: Answer) {
    && ValidCursor(cursor) && a == AnswerFromIndex(merged, q.limit, StartIndex(merged, Position(cursor)))
    && p.Refs() == a.refs && ValidCursor(p.nextCursor) && Position(p.nextCursor) == a.next
    && (p.nextCursor == "" <==> a.next.None?)
  }

  lemma {:induction false} RequestAnswers(st: Store, userFeeds: seq<int>, q: Query, cursor: string, p: Page)
    returns (a: Answer)
    requires q.limit > 0 && !q.unreadOnly && FeedsAsked(userFeeds, q.feedID) != []
    requires AllEncodable(Merged(st, userFeeds, q, {})) && ValidCursor(cursor)
    requires Answers(st, userFeeds, q, cursor, NO_FAULTS, p)
    ensures IsAnswerPage(Merged(st, userFeeds, q, {}), q, cursor, p, a)
  {
    var merged := Merged(st, userFeeds, q, {});
    var start := StartIndex(merged, Position(cursor));
    PageIsAnswer(st, q, merged, start, p);
    a := AnswerFromIndex(merged, q.limit, start);
  }

  lemma {:induction false} ClientRunIsRun(st: Store, userFeeds: seq<int>, q: Query, cursor: string, pages: seq<Page>)
    returns (answers: seq<Answer>)
    requires q.limit > 0 && !q.unreadOnly && FeedsAsked(userFeeds, q.feedID) != []
    requires AllEncodable(Merged(st, userFeeds, q, {})) && IsClientRun(st, userFeeds, q, cursor, pages)
    ensures IsRun(Merged(st, userFeeds, q, {}), q.limit, Position(cursor), answers)
    ensures |answers| == |pages| && Delivered(answers) == Seen(pages)
    ensures answers[|answers| - 1].next.None? <==> pages[|pages| - 1].nextCursor == ""
    decreases |pages|
  {
    var a := RequestAnswers(st, userFeeds, q, cursor, pages[0]);
    var rest := [];
    if |pages| > 1 {
      rest := ClientRunIsRun(st, userFeeds, q, pages[0].nextCursor, pages[1..]);
    }
    PageThenRun(Merged(st, userFeeds, q, {}), q.limit, Position(cursor), a, pages, rest);
    answers := [a] + rest;
  }

  lemma {:induction false} MergedIsEncodable(st: Store, userFeeds: seq<int>, q: Query)
    requires Storable(st)
    ensures AllEncodable(Merged(st, userFeeds, q, {}))
  {
    MergedIsStored(st, Answering(FeedsAsked(userFeeds, q.feedID), {}), CapAtFeedMax(q.limit * 2));
  }

  /** On an unchanged store, following the returned cursors from the first page until one is empty
      shows the whole merged listing, each article once and in order; stopping earlier shows a
      prefix of it. */
  lemma {:induction false} ClientSeesWholeListing(st: Store, userFeeds: seq<int>, q: Query, pages: seq<Page>)
    requires q.limit > 0 && !q.unreadOnly && FeedsAsked(userFeeds, q.feedID) != [] && Storable(st)
    requires IsClientRun(st, userFeeds, q, "", pages)
    ensures Seen(pages) <= Merged(st, userFeeds, q, {})
    ensures pages[|pages| - 1].nextCursor == "" <==> Seen(pages) == Merged(st, userFeeds, q, {})
  {
    var merged := Merged(st, userFeeds, q, {});
    MergedIsEncodable(st, userFeeds, q);
    var answers := ClientRunIsRun(st, userFeeds, q, "", pages);
    RunPartitions(merged, q.limit, None, answers);
    assert merged[0..] == merged;
  }

  // ---------------------------------------------------------------------------------------
  // Agreement of the two back ends.
  // ---------------------------------------------------------------------------------------

  ghost predicate ListsSubscriptions(st: Store, userID: int, userFeeds: seq<int>) {
    Distinct(userFeeds) && forall f :: f in userFeeds <==> st.Subscribed(userID, f)
  }

  /** The full order both back ends page through when nothing is filtered. */
  ghost function FullOrder(st: Store, q: Query): seq<Ref> {
    Listing(SqlitePager.Matching(st, q))
  }

  lemma {:induction false} MatchingIsGlobal(st: Store, userFeeds: seq<int>, q: Query)
    requires ListsSubscriptions(st, q.userID, userFeeds) && !q.unreadOnly
    ensures SqlitePager.Matching(st, q) == GlobalRefs(st, Answering(FeedsAsked(userFeeds, q.feedID), {}))
  {
    var feeds := Answering(FeedsAsked(userFeeds, q.feedID), {});
    forall r | r in SqlitePager.Matching(st, q) ensures r in GlobalRefs(st, feeds) {
      var f := st.articles[r.id].feedID;
      assert f in FeedsAsked(userFeeds, q.feedID);
      assert f in feeds && r in FeedRefs(st, f);
    }
    forall r | r in GlobalRefs(st, feeds) ensures r in SqlitePager.Matching(st, q) {
      var f :| f in feeds && r in FeedRefs(st, f);
      assert SqlitePager.Matches(st, q, r.id);
    }
  }

  /** The position behind the first b refs of a listing. */
  ghost function PositionIn(full: seq<Ref>, b: nat): Option<Ref>
    requires b <= |full|
  {
    if b == 0 then None else Some(full[b - 1])
  }

  lemma {:induction false} ListingBehind(full: seq<Ref>, S: set<Ref>, b: nat)
    requires Lists(full, S) && b <= |full|
    ensures Listing(Behind(S, PositionIn(full, b))) == full[b..]
  {
    if b > 0 {
      SuffixListsAfter(full, S, b - 1);
    } else {
      assert full[0..] == full;
    }
    ListingUnique(full[b..], Listing(Behind(S, PositionIn(full, b))), Behind(S, PositionIn(full, b)));
  }

  lemma {:induction false} SamePrefixSameSlice(s: seq<Ref>, g: seq<Ref>, k: nat, b: nat, limit: nat)
    requires Take(s, k) == Take(g, k) && |s| <= |g| && b + limit <= k && b <= |g|
    ensures b <= |s| && Take(s[b..], limit) == Take(g[b..], limit)
    ensures b > 0 ==> s[b - 1] == g[b - 1]
    ensures b < |g| && b < k ==> b < |s|
    ensures b + limit < k ==> (|s| > b + limit <==> |g| > b + limit)
  {
    assert |Take(s, k)| == Min(k, |s|) && |Take(g, k)| == Min(k, |g|);
    forall i | 0 <= i < Min(k, |g|) ensures i < |s| && s[i] == g[i] {
      assert Take(s, k)[i] == s[i] && Take(g, k)[i] == g[i];
    }
  }

  /** Up to the cap the merged listing continues a position as the full order does. */
  lemma {:induction false} MergedSlice(st: Store, feeds: set<int>, limit: nat, full: seq<Ref>, merged: seq<Ref>, b: nat)
    requires Lists(full, GlobalRefs(st, feeds)) && Lists(merged, Gathered(st, feeds, CapAtFeedMax(limit * 2)))
    requires limit > 0 && b <= |full| && (b > 0 ==> b < |full|) && b + limit <= CapAtFeedMax(limit * 2)
    ensures b <= |merged| <= |full| && StartIndex(merged, PositionIn(full, b)) == b
    ensures Take(merged[b..], limit) == Take(full[b..], limit)
    ensures b + limit < CapAtFeedMax(limit * 2) ==> (|merged| > b + limit <==> |full| > b + limit)
  {
    var k := CapAtFeedMax(limit * 2);
    MergeIsExactToRank(st, feeds, k, merged, full);
    SamePrefixSameSlice(merged, full, k, b, limit);
    if b > 0 {
      PositionLeadsTo(merged, b - 1);
    }
  }

  /** Merge and keyset query give the same answer to a position whose page ends within the cap:
      the same refs always, the same next position exactly when both or neither have refs left,
      and both below the cap. */
  lemma {:induction false} AnswersAgree(st: Store, feeds: set<int>, limit: nat, full: seq<Ref>,
                                        merged: seq<Ref>, b: nat, a: Answer)
    requires Lists(full, GlobalRefs(st, feeds)) && Lists(merged, Gathered(st, feeds, CapAtFeedMax(limit * 2)))
    requires limit > 0 && b <= |full| && (b > 0 ==> b < |full|) && b + limit <= CapAtFeedMax(limit * 2)
    requires SqlitePager.IsAnswer(GlobalRefs(st, feeds), PositionIn(full, b), limit, a)
    ensures var d := AnswerFromIndex(merged, limit, StartIndex(merged, PositionIn(full, b)));
      && a.refs == d.refs
      && (a.next == d.next <==> (|merged| > b + limit <==> |full| > b + limit))
      && (b + limit < CapAtFeedMax(limit * 2) ==> a == d)
  {
    MergedSlice(st, feeds, limit, full, merged, b);
    ListingBehind(full, GlobalRefs(st, feeds), b);
    AnswerShape(merged, limit, b);
    if |merged| > b + limit {
      assert Take(merged[b..], limit)[limit - 1] == Take(full[b..], limit)[limit - 1];
    }
  }

  /** On the input: the answers differ exactly for a page that ends at the cap when one feed alone holds
      articles, more than the cap. */
  lemma {:induction false} AnswersDifferExactly(st: Store, feeds: set<int>, limit: nat, full: seq<Ref>,
                                                merged: seq<Ref>, b: nat, a: Answer)
    requires Lists(full, GlobalRefs(st, feeds)) && Lists(merged, Gathered(st, feeds, CapAtFeedMax(limit * 2)))
    requires limit > 0 && b <= |full| && (b > 0 ==> b < |full|) && b + limit <= CapAtFeedMax(limit * 2)
    requires SqlitePager.IsAnswer(GlobalRefs(st, feeds), PositionIn(full, b), limit, a)
    ensures a != AnswerFromIndex(merged, limit, StartIndex(merged, PositionIn(full, b)))
       <==> b + limit == CapAtFeedMax(limit * 2) && OneFeedBeyondCap(st, feeds, CapAtFeedMax(limit * 2))
  {
    AnswersAgree(st, feeds, limit, full, merged, b, a);
    CapHidesArticlesExactly(st, feeds, CapAtFeedMax(limit * 2), merged, full);
    MergeIsExactToRank(st, feeds, CapAtFeedMax(limit * 2), merged, full);
  }

  // The same for pages: rows with their marks, and cursor texts.

  lemma {:induction false} SqliteSlice(st: Store, q: Query, b: nat, cursor: string, p: Page)
    requires q.limit > 0 && b <= |FullOrder(st, q)|
    requires ValidCursor(cursor) && Position(cursor) == PositionIn(FullOrder(st, q), b)
    requires SqlitePager.IsPage(st, q, cursor, p)
    ensures SqlitePager.ShowsFirst(st, q.userID, FullOrder(st, q)[b..], q.limit, p)
  {
    ListingBehind(FullOrder(st, q), SqlitePager.Matching(st, q), b);
  }

  lemma {:induction false} DatastoreSlice(st: Store, userFeeds: seq<int>, q: Query, b: nat)
    requires q.limit > 0 && !q.unreadOnly && ListsSubscriptions(st, q.userID, userFeeds)
    requires b <= |FullOrder(st, q)| && (b > 0 ==> b < |FullOrder(st, q)|)
    requires b + q.limit <= CapAtFeedMax(q.limit * 2)
    ensures var merged := Merged(st, userFeeds, q, {}); var full := FullOrder(st, q);
      && b <= |merged| <= |full|
      && StartIndex(merged, PositionIn(full, b)) == b
      && Take(merged[b..], q.limit) == Take(full[b..], q.limit)
      && (b + q.limit < CapAtFeedMax(q.limit * 2) ==> (|merged| > b + q.limit <==> |full| > b + q.limit))
  {
    MatchingIsGlobal(st, userFeeds, q);
    MergedSlice(st, Answering(FeedsAsked(userFeeds, q.feedID), {}), q.limit,
                FullOrder(st, q), Merged(st, userFeeds, q, {}), b);
  }

  lemma {:induction false} EqualRows(st: Store, userID: int, page: seq<Ref>, p: Page, d: Page)
    requires ShowsRefs(st, userID, page, NO_FAULTS, d) && p.Refs() == page
    requires forall row :: row in p.articles ==>
      row.id in st.articles && row == SqlitePager.RowOf(st, userID, st.RefOf(row.id))
    ensures p.articles == d.articles
  {
    KeepAll(page, true, {});
    forall i | 0 <= i < |p.articles| ensures p.articles[i] == d.articles[i] {
      assert p.Refs()[i] == d.Refs()[i];
      assert p.articles[i] in p.articles && d.articles[i] in d.articles;
    }
  }

  lemma {:induction false} SameRefsSameRows(st: Store, q: Query, rest: seq<Ref>, remaining: seq<Ref>, p: Page, d: Page)
    requires q.limit > 0 && !q.unreadOnly && Take(rest, q.limit) == Take(remaining, q.limit)
    requires SqlitePager.ShowsFirst(st, q.userID, rest, q.limit, p)
    requires Shows(st, q, remaining, NO_FAULTS, d)
    ensures p.articles == d.articles
    ensures p.nextCursor == CursorFor(if |rest| > q.limit then Some(rest[q.limit - 1]) else None)
    ensures d.nextCursor == CursorFor(if |remaining| > q.limit then Some(remaining[q.limit - 1]) else None)
  {
    ShowsAllArticles(st, q, remaining, d);
    EqualRows(st, q.userID, Take(remaining, q.limit), p, d);
  }

  lemma {:induction false} SameNextExactly(merged: seq<Ref>, full: seq<Ref>, b: nat, limit: nat, pNext: string,
                                           dNext: string)
    requires limit > 0 && b <= |merged| <= |full| && Take(merged[b..], limit) == Take(full[b..], limit)
    requires pNext == CursorFor(if |full[b..]| > limit then Some(full[b..][limit - 1]) else None)
    requires dNext == CursorFor(if |merged[b..]| > limit then Some(merged[b..][limit - 1]) else None)
    ensures pNext == dNext <==> (|merged| > b + limit <==> |full| > b + limit)
    ensures pNext == CursorFor(if |full| > b + limit then Some(full[b + limit - 1]) else None)
  {
    if |merged| > b + limit {
      assert Take(merged[b..], limit)[limit - 1] == Take(full[b..], limit)[limit - 1];
    }
  }

  lemma {:induction false} SlicesAgree(st: Store, q: Query, merged: seq<Ref>, full: seq<Ref>, b: nat, p: Page, d: Page)
    requires q.limit > 0 && !q.unreadOnly && b <= |merged| <= |full|
    requires Take(merged[b..], q.limit) == Take(full[b..], q.limit)
    requires SqlitePager.ShowsFirst(st, q.userID, full[b..], q.limit, p)
    requires Shows(st, q, merged[b..], NO_FAULTS, d)
    ensures p.articles == d.articles
    ensures p.nextCursor == d.nextCursor <==> (|merged| > b + q.limit <==> |full| > b + q.limit)
    ensures p.nextCursor == CursorFor(if |full| > b + q.limit then Some(full[b + q.limit - 1]) else None)
  {
    SameRefsSameRows(st, q, full[b..], merged[b..], p, d);
    SameNextExactly(merged, full, b, q.limit, p.nextCursor, d.nextCursor);
  }

  /** On the same store, every page whose last rank is within the per-feed cap shows the same rows
      on both back ends. The cursors agree exactly when both or neither still have articles left,
      and below the cap they always do. */
  lemma {:induction false} BackendsAgree(st: Store, userFeeds: seq<int>, q: Query, b: nat, cursor: string,
                                         p: Page, d: Page)
    requires q.limit > 0 && !q.unreadOnly && ListsSubscriptions(st, q.userID, userFeeds)
    requires b <= |FullOrder(st, q)| && (b > 0 ==> b < |FullOrder(st, q)|)
    requires b + q.limit <= CapAtFeedMax(q.limit * 2)
    requires ValidCursor(cursor) && Position(cursor) == PositionIn(FullOrder(st, q), b)
    requires SqlitePager.IsPage(st, q, cursor, p)
    requires Answers(st, userFeeds, q, cursor, NO_FAULTS, d)
    ensures p.articles == d.articles
    ensures var full := FullOrder(st, q);
      p.nextCursor == CursorFor(if |full| > b + q.limit then Some(full[b + q.limit - 1]) else None)
    ensures p.nextCursor == d.nextCursor
       <==> (|Merged(st, userFeeds, q, {})| > b + q.limit <==> |FullOrder(st, q)| > b + q.limit)
    ensures b + q.limit < CapAtFeedMax(q.limit * 2) ==> p.nextCursor == d.nextCursor
  {
    var full := FullOrder(st, q);
    var merged := Merged(st, userFeeds, q, {});
    SqliteSlice(st, q, b, cursor, p);
    DatastoreSlice(st, userFeeds, q, b);
    if FeedsAsked(userFeeds, q.feedID) == [] {
      MatchingIsGlobal(st, userFeeds, q);
      assert full == [] && p.Refs() == [];
    } else {
      SlicesAgree(st, q, merged, full, b, p, d);
    }
  }

  lemma {:induction false} MergedReachesBeyond(st: Store, userFeeds: seq<int>, q: Query, b: nat)
    requires q.limit > 0 && !q.unreadOnly && ListsSubscriptions(st, q.userID, userFeeds)
    requires b <= |FullOrder(st, q)| && (b > 0 ==> b < |FullOrder(st, q)|)
    requires b + q.limit <= CapAtFeedMax(q.limit * 2)
    ensures var feeds := Answering(FeedsAsked(userFeeds, q.feedID), {});
      (|Merged(st, userFeeds, q, {})| > b + q.limit <==> |FullOrder(st, q)| > b + q.limit)
      <==> !(b + q.limit == CapAtFeedMax(q.limit * 2) && OneFeedBeyondCap(st, feeds, CapAtFeedMax(q.limit * 2)))
  {
    var feeds := Answering(FeedsAsked(userFeeds, q.feedID), {});
    DatastoreSlice(st, userFeeds, q, b);
    MatchingIsGlobal(st, userFeeds, q);
    CapHidesArticlesExactly(st, feeds, CapAtFeedMax(q.limit * 2), Merged(st, userFeeds, q, {}), FullOrder(st, q));
  }

  /** On the input: the two cursors differ exactly for a page that ends at the cap when one of the asked
      feeds alone holds articles, more than the cap. */
  lemma {:induction false} CursorsDifferExactly(st: Store, userFeeds: seq<int>, q: Query, b: nat, cursor: string,
                                                p: Page, d: Page)
    requires q.limit > 0 && !q.unreadOnly && ListsSubscriptions(st, q.userID, userFeeds)
    requires b <= |FullOrder(st, q)| && (b > 0 ==> b < |FullOrder(st, q)|)
    requires b + q.limit <= CapAtFeedMax(q.limit * 2)
    requires ValidCursor(cursor) && Position(cursor) == PositionIn(FullOrder(st, q), b)
    requires SqlitePager.IsPage(st, q, cursor, p) && Answers(st, userFeeds, q, cursor, NO_FAULTS, d)
    ensures var feeds := Answering(FeedsAsked(userFeeds, q.feedID), {});
      p.nextCursor != d.nextCursor
      <==> b + q.limit == CapAtFeedMax(q.limit * 2) && OneFeedBeyondCap(st, feeds, CapAtFeedMax(q.limit * 2))
  {
    BackendsAgree(st, userFeeds, q, b, cursor, p, d);
    MergedReachesBeyond(st, userFeeds, q, b);
  }

  lemma {:induction false} FirstCursorPosition(st: Store, q: Query, cursor: string)
    requires Storable(st) && 0 < q.limit && cursor != ""
    requires var full := FullOrder(st, q);
      cursor == CursorFor(if |full| > q.limit then Some(full[q.limit - 1]) else None)
    ensures |FullOrder(st, q)| > q.limit
    ensures ValidCursor(cursor) && Position(cursor) == PositionIn(FullOrder(st, q), q.limit)
  {
    var r := FullOrder(st, q)[q.limit - 1];
    assert r in SqlitePager.Matching(st, q);
    CursorForPosition(Some(r));
  }

  /** For the limits the API accepts, the first page is the same on both back ends, cursor
      included, and so are the rows of the second. */
  lemma {:induction false} FirstTwoPagesAgree(st: Store, userFeeds: seq<int>, q: Query, p1: Page, d1: Page,
                                              p2: Page, d2: Page)
    requires 0 < q.limit <= 100 && Storable(st) && !q.unreadOnly && ListsSubscriptions(st, q.userID, userFeeds)
    requires SqlitePager.IsPage(st, q, "", p1) && Answers(st, userFeeds, q, "", NO_FAULTS, d1)
    requires p1.nextCursor != "" ==> ValidCursor(p1.nextCursor)
    requires p1.nextCursor != "" ==> SqlitePager.IsPage(st, q, p1.nextCursor, p2)
    requires p1.nextCursor != "" ==> Answers(st, userFeeds, q, p1.nextCursor, NO_FAULTS, d2)
    ensures p1 == d1
    ensures p1.nextCursor != "" ==> p2.articles == d2.articles
  {
    BackendsAgree(st, userFeeds, q, 0, "", p1, d1);
    if p1.nextCursor != "" {
      FirstCursorPosition(st, q, p1.nextCursor);
      BackendsAgree(st, userFeeds, q, q.limit, p1.nextCursor, p2, d2);
    }
  }
}
