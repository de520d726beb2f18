/** Keyset pagination of the SQLite back end, and runs of requests over a changing store. */
module SqlitePager {
  import opened Results
  import opened Collections
  import opened Timeline
  import opened ArticleStore
  import opened Pages
  import Cursor

  const PAGINATION_OVERFETCH: nat := 1

  predicate Matches(st: Store, q: Query, id: int)
    requires id in st.articles
  {
    var a := st.articles[id];
    st.Subscribed(q.userID, a.feedID)
    && (q.feedID != 0 ==> a.feedID == q.feedID)
    && (q.unreadOnly ==> !st.IsRead(q.userID, id))
  }

  /** The articles the query selects, before keyset condition, order and limit. */
  function Matching(st: Store, q: Query): set<Ref> {
    set id | id in st.articles && Matches(st, q, id) :: st.RefOf(id)
  }

  /** The rows that pass the keyset condition of the cursor. */
  function Remaining(st: Store, q: Query, cursor: string): set<Ref>
    requires ValidCursor(cursor)
  {
    Behind(Matching(st, q), Position(cursor))
  }

  function RowOf(st: Store, userID: int, r: Ref): Row
    requires r.id in st.articles
  {
    Row(r.id, Summary(st.articles[r.id]), st.IsRead(userID, r.id), st.IsStarred(userID, r.id))
  }

  /** `p` shows the first `limit` of the refs in `rest`, each with its stored row, and a cursor
      for the last of them exactly when more remain. */
  ghost predicate ShowsFirst(st: Store, userID: int, rest: seq<Ref>, limit: nat, p: Page) {
    && p.Refs() == Take(rest, limit)
    && (forall row :: row in p.articles ==>
          row.id in st.articles && row == RowOf(st, userID, st.RefOf(row.id)))
    && p.nextCursor == CursorFor(if 0 < limit < |rest| then Some(rest[limit - 1]) else None)
  }

  /** The page a request promises: the newest `limit` remaining articles. */
  ghost predicate IsPage(st: Store, q: Query, cursor: string, p: Page)
    requires ValidCursor(cursor)
  {
    ShowsFirst(st, q.userID, Listing(Remaining(st, q, cursor)), q.limit, p)
  }

  lemma {:induction false} RemainingAreStored(st: Store, q: Query, cursor: string, s: seq<Ref>)
    requires ValidCursor(cursor) && forall r :: r in s ==> r in Remaining(st, q, cursor)
    ensures forall r :: r in s ==> r.id in st.articles && st.RefOf(r.id) == r
  {
  }

  /** Scanning the result set, one row at a time. */
  method ScanRows(st: Store, userID: int, rows: seq<Ref>) returns (articles: seq<Row>)
    requires forall r :: r in rows ==> r.id in st.articles
    ensures |articles| == |rows|
    ensures forall k :: 0 <= k < |rows| ==> articles[k] == RowOf(st, userID, rows[k])
  {
    articles := [];
    var i := 0;
    while i < |rows|
      invariant 0 <= i <= |rows| && |articles| == i
      invariant forall k :: 0 <= k < i ==> articles[k] == RowOf(st, userID, rows[k])
    {
      articles := articles + [RowOf(st, userID, rows[i])];
      i := i + 1;
    }
  }

  /** Rows made of the first refs of a listing show exactly those refs, each with its stored row. */
  lemma {:induction false} RowsShowRefs(st: Store, userID: int, rows: seq<Ref>, p: Page)
    requires |p.articles| <= |rows| && forall r :: r in rows ==> r.id in st.articles && st.RefOf(r.id) == r
    requires forall k :: 0 <= k < |p.articles| ==> p.articles[k] == RowOf(st, userID, rows[k])
    ensures p.Refs() == rows[..|p.articles|]
    ensures forall row :: row in p.articles ==> row.id in st.articles && row == RowOf(st, userID, st.RefOf(row.id))
  {
    forall k | 0 <= k < |p.articles|
      ensures p.Refs()[k] == rows[k] && p.articles[k].id in st.articles && st.RefOf(p.articles[k].id) == rows[k]
    {
      assert rows[k] in rows;
    }
  }

  lemma {:induction false} TrimmedShows(st: Store, userID: int, rest: seq<Ref>, rows: seq<Ref>, limit: nat, p: Page)
    requires limit > 0 && rows == Take(rest, limit + PAGINATION_OVERFETCH)
    requires forall r :: r in rows ==> r.id in st.articles && st.RefOf(r.id) == r
    requires |p.articles| == Min(limit, |rows|)
    requires forall k :: 0 <= k < |p.articles| ==> p.articles[k] == RowOf(st, userID, rows[k])
    requires p.nextCursor == CursorFor(if |rows| > limit then Some(rows[limit - 1]) else None)
    ensures ShowsFirst(st, userID, rest, limit, p)
  {
    RowsShowRefs(st, userID, rows, p);
    assert p.Refs() == Take(rest, limit);
  }

  /** The part of the request behind the SQL query: scan the overfetched rows, detect that more
      exist, take the cursor from the last row kept, trim. */
  method TrimToLimit(st: Store, userID: int, ghost rest: seq<Ref>, rows: seq<Ref>, limit: nat) returns (p: Page)
    requires limit > 0 && rows == Take(rest, limit + PAGINATION_OVERFETCH)
    requires forall r :: r in rows ==> r.id in st.articles && st.RefOf(r.id) == r
    ensures ShowsFirst(st, userID, rest, limit, p)
  {
    var articles := ScanRows(st, userID, rows);
    var nextCursor := "";
    if |articles| > limit {
      var last := articles[limit - 1];
      assert rows[limit - 1] in rows;
      nextCursor := Cursor.Encode(Ref(last.id, last.article.publishedAt));
      articles := articles[..limit];
    }
    p := Page(articles, nextCursor);
    TrimmedShows(st, userID, rest, rows, limit, p);
  }

  /** The request itself. `limit` is positive for every caller; the source indexes
      `articles[limit-1]` and has no answer for 0. */
  method GetUserArticlesPaginated(st: Store, q: Query, cursor: string) returns (r: Result<Page>)
    requires q.limit > 0
    ensures r.Ok? <==> ValidCursor(cursor)
    ensures r.Ok? ==> IsPage(st, q, cursor, r.value)
  {
    if !ValidCursor(cursor) {
      return Err("invalid cursor");
    }
    var rest := Listing(Remaining(st, q, cursor));
    var rows := Take(rest, q.limit + PAGINATION_OVERFETCH);
    RemainingAreStored(st, q, cursor, rows);
    var page := TrimToLimit(st, q.userID, rest, rows, q.limit);
    r := Ok(page);
  }

  // ---------------------------------------------------------------------------------------
  // Runs of requests, by what the query matches at each of them: articles arrive, read marks flip
  // and subscriptions come and go between one request and the next.
  // ---------------------------------------------------------------------------------------

  /** The first `limit` refs of S behind the position, and a new position when more follow. */
  ghost predicate IsAnswer(S: set<Ref>, pos: Option<Ref>, limit: nat, a: Answer) {
    var rest := Listing(Behind(S, pos));
    a == Answer(Take(rest, limit), if 0 < limit < |rest| then Some(rest[limit - 1]) else None)
  }

  /** Where request i continues: at the start, then from the position the answer before gave. */
  ghost function PositionBefore(pos: Option<Ref>, answers: seq<Answer>, i: nat): Option<Ref>
    requires i <= |answers|
  {
    if i == 0 then pos else answers[i - 1].next
  }

  ghost predicate IsRun(matching: seq<set<Ref>>, limit: nat, pos: Option<Ref>, answers: seq<Answer>) {
    && |matching| == |answers| > 0
    && (forall i :: 0 <= i < |answers| ==> IsAnswer(matching[i], PositionBefore(pos, answers, i), limit, answers[i]))
    && (forall i :: 0 <= i < |answers| - 1 ==> answers[i].next.Some?)
  }

  lemma {:induction false} RunTail(matching: seq<set<Ref>>, limit: nat, pos: Option<Ref>, answers: seq<Answer>)
    requires IsRun(matching, limit, pos, answers)
    ensures IsAnswer(matching[0], pos, limit, answers[0])
    ensures |answers| > 1 ==> answers[0].next.Some? && IsRun(matching[1..], limit, answers[0].next, answers[1..])
  {
    assert PositionBefore(pos, answers, 0) == pos;
    forall i | 0 <= i < |answers| - 1
      ensures IsAnswer(matching[1..][i], PositionBefore(answers[0].next, answers[1..], i), limit, answers[1..][i])
    {
      assert PositionBefore(answers[0].next, answers[1..], i) == PositionBefore(pos, answers, i + 1);
    }
  }

  /** `head` lists the refs of S up to and including `next`, or all of them when there is none. */
  ghost predicate ListSplits(S: set<Ref>, head: seq<Ref>, next: Option<Ref>) {
    && Descending(head) && (forall r :: r in head ==> r in S)
    && (next.Some? ==> head != [] && next.value == head[|head| - 1])
    && (forall r :: r in S && r !in head ==> next.Some? && Before(next.value, r))
  }

  /** What one answer leaves for later is exactly what lies behind the position it gives. */
  lemma {:induction false} AnswerSplits(S: set<Ref>, pos: Option<Ref>, limit: nat, a: Answer)
    requires limit > 0 && IsAnswer(S, pos, limit, a)
    ensures ListSplits(Behind(S, pos), a.refs, a.next)
  {
    var rest := Listing(Behind(S, pos));
    forall k | 0 <= k < |a.refs| ensures a.refs[k] == rest[k] && rest[k] in a.refs {
    }
    forall r | r in Behind(S, pos) && r !in a.refs ensures |rest| > limit && Before(rest[limit - 1], r) {
      var j :| 0 <= j < |rest| && rest[j] == r;
    }
  }

  /** Every ref lies behind the position, if there is one. */
  ghost predicate AllBehind(pos: Option<Ref>, refs: seq<Ref>) {
    pos.Some? ==> forall r :: r in refs ==> Before(pos.value, r)
  }

  lemma {:induction false} SplitThenRest(S: set<Ref>, head: seq<Ref>, next: Option<Ref>, rest: seq<Ref>,
                                         pos: Option<Ref>)
    requires ListSplits(S, head, next) && Descending(rest) && AllBehind(next, rest)
    requires next.None? ==> rest == []
    requires pos.Some? ==> forall r :: r in S ==> Before(pos.value, r)
    ensures Descending(head + rest) && AllBehind(pos, head + rest)
  {
    if next.None? {
      assert head + rest == head;
    } else {
      JoinBehind(head, rest, next.value);
      assert next.value in S;
    }
  }

  /** No article is repeated or out of order in a run, whatever happens between its requests:
      the concatenated answers are strictly descending and lie behind the starting position. */
  lemma {:induction false} RunIsDescending(matching: seq<set<Ref>>, limit: nat, pos: Option<Ref>, answers: seq<Answer>)
    requires limit > 0 && IsRun(matching, limit, pos, answers)
    ensures Descending(Delivered(answers)) && AllBehind(pos, Delivered(answers))
    decreases |answers|
  {
    RunTail(matching, limit, pos, answers);
    AnswerSplits(matching[0], pos, limit, answers[0]);
    if |answers| > 1 {
      RunIsDescending(matching[1..], limit, answers[0].next, answers[1..]);
      SplitThenRest(Behind(matching[0], pos), answers[0].refs, answers[0].next, Delivered(answers[1..]), pos);
    } else {
      assert Delivered(answers[1..]) == [];
      assert Delivered(answers) == answers[0].refs;
    }
  }

  /** A run that ends without a position has delivered every article that matched at each of its
      requests. */
  lemma {:induction false} RunIsComplete(matching: seq<set<Ref>>, limit: nat, pos: Option<Ref>,
                                         answers: seq<Answer>, r: Ref)
    requires limit > 0 && IsRun(matching, limit, pos, answers) && answers[|answers| - 1].next.None?
    requires forall S :: S in matching ==> r in Behind(S, pos)
    ensures r in Delivered(answers)
    decreases |answers|
  {
    RunTail(matching, limit, pos, answers);
    AnswerSplits(matching[0], pos, limit, answers[0]);
    assert matching[0] in matching;
    if r !in answers[0].refs {
      assert |answers| > 1;
      forall S | S in matching[1..] ensures r in Behind(S, answers[0].next) {
        assert S in matching;
      }
      RunIsComplete(matching[1..], limit, answers[0].next, answers[1..], r);
    }
  }

  /** Every delivered article matched at the request that delivered it. */
  lemma {:induction false} RunIsSound(matching: seq<set<Ref>>, limit: nat, pos: Option<Ref>,
                                      answers: seq<Answer>, r: Ref)
    returns (i: nat)
    requires limit > 0 && IsRun(matching, limit, pos, answers) && r in Delivered(answers)
    ensures i < |answers| && r in answers[i].refs && r in matching[i]
    decreases |answers|
  {
    RunTail(matching, limit, pos, answers);
    if r in answers[0].refs {
      i := 0;
      AnswerSplits(matching[0], pos, limit, answers[0]);
    } else {
      assert r in Delivered(answers[1..]);
      assert |answers| > 1;
      i := RunIsSound(matching[1..], limit, answers[0].next, answers[1..], r);
      i := i + 1;
    }
  }

  /** When the query keeps matching the same articles, a finished run from the start is their
      listing. */
  lemma {:induction false} StaticRunIsListing(S: set<Ref>, full: seq<Ref>, matching: seq<set<Ref>>, limit: nat,
                                              answers: seq<Answer>)
    requires limit > 0 && Lists(full, S) && (forall T :: T in matching ==> T == S)
    requires IsRun(matching, limit, None, answers) && answers[|answers| - 1].next.None?
    ensures Delivered(answers) == full
  {
    RunIsDescending(matching, limit, None, answers);
    forall r | r in S ensures r in Delivered(answers) {
      RunIsComplete(matching, limit, None, answers, r);
    }
    forall r | r in Delivered(answers) ensures r in S {
      var i := RunIsSound(matching, limit, None, answers, r);
      assert matching[i] in matching;
    }
    ListingUnique(Delivered(answers), full, S);
  }

  /** Each answer that gives a position leaves `limit` articles fewer behind it, so on an unchanged
      store following positions ends after at most one request per `limit` articles. */
  lemma {:induction false} AnswerMakesProgress(S: set<Ref>, pos: Option<Ref>, limit: nat, a: Answer)
    requires limit > 0 && IsAnswer(S, pos, limit, a) && a.next.Some?
    ensures |Behind(S, a.next)| == |Behind(S, pos)| - limit
  {
    var rest := Listing(Behind(S, pos));
    SuffixListsAfter(rest, Behind(S, pos), limit - 1);
    AnswerSplits(S, pos, limit, a);
    SameSet(Behind(S, a.next), After(Behind(S, pos), a.next.value));
    CardinalityOfDescending(rest);
    CardinalityOfDescending(rest[limit..]);
    assert SetOf(rest) == Behind(S, pos) && SetOf(rest[limit..]) == Behind(S, a.next);
  }

  // ---------------------------------------------------------------------------------------
  // The same for the pages and cursor texts a client really sees.
  // ---------------------------------------------------------------------------------------

  /** The page's refs and its decoded cursor answer the request. */
  ghost predicate PageAnswers(st: Store, q: Query, cursor: string, p: Page) {
    && ValidCursor(cursor) && ValidCursor(p.nextCursor) && (p.nextCursor == "" <==> Position(p.nextCursor).None?)
    && IsAnswer(Matching(st, q), Position(cursor), q.limit, Answer(p.Refs(), Position(p.nextCursor)))
  }

  lemma {:induction false} PageIsAnswer(st: Store, q: Query, cursor: string, p: Page)
    requires q.limit > 0 && Storable(st) && ValidCursor(cursor) && IsPage(st, q, cursor, p)
    ensures PageAnswers(st, q, cursor, p)
  {
    var rest := Listing(Remaining(st, q, cursor));
    var next := if |rest| > q.limit then Some(rest[q.limit - 1]) else None;
    if next.Some? {
      assert next.value in Remaining(st, q, cursor);
    }
    CursorForPosition(next);
  }

  ghost function CursorBefore(cursor: string, pages: seq<Page>, i: nat): string
    requires i <= |pages|
  {
    if i == 0 then cursor else pages[i - 1].nextCursor
  }

  ghost predicate IsPageFor(st: Store, q: Query, cursor: string, p: Page) {
    ValidCursor(cursor) && IsPage(st, q, cursor, p)
  }

  /** One request after another on stores that change in between. */
  ghost predicate IsClientRun(stores: seq<Store>, q: Query, cursor: string, pages: seq<Page>) {
    && |stores| == |pages| > 0
    && (forall i :: 0 <= i < |pages| ==> IsPageFor(stores[i], q, CursorBefore(cursor, pages, i), pages[i]))
    && (forall i :: 0 <= i < |pages| - 1 ==> pages[i].nextCursor != "")
  }

  ghost function MatchingIn(stores: seq<Store>, q: Query): seq<set<Ref>> {
    seq(|stores|, i requires 0 <= i < |stores| => Matching(stores[i], q))
  }

  /** The answers the pages amount to. */
  ghost function AnswersIn(pages: seq<Page>): seq<Answer>
    requires forall p :: p in pages ==> ValidCursor(p.nextCursor)
  {
    seq(|pages|, i requires 0 <= i < |pages| =>
      assert pages[i] in pages; Answer(pages[i].Refs(), Position(pages[i].nextCursor)))
  }

  lemma {:induction false} AnswersDeliverSeen(pages: seq<Page>)
    requires forall p :: p in pages ==> ValidCursor(p.nextCursor)
    ensures Delivered(AnswersIn(pages)) == Seen(pages)
  {
    if pages != [] {
      assert AnswersIn(pages)[1..] == AnswersIn(pages[1..]);
      AnswersDeliverSeen(pages[1..]);
    }
  }

  lemma {:induction false} ClientRunAnswers(stores: seq<Store>, q: Query, cursor: string, pages: seq<Page>, i: nat)
    requires q.limit > 0 && IsClientRun(stores, q, cursor, pages) && i < |pages|
    requires forall st :: st in stores ==> Storable(st)
    ensures PageAnswers(stores[i], q, CursorBefore(cursor, pages, i), pages[i])
  {
    assert stores[i] in stores;
    assert IsPageFor(stores[i], q, CursorBefore(cursor, pages, i), pages[i]);
    PageIsAnswer(stores[i], q, CursorBefore(cursor, pages, i), pages[i]);
  }

  lemma {:induction false} AnswerInChain(st: Store, q: Query, cursor: string, pages: seq<Page>, i: nat)
    requires forall p :: p in pages ==> ValidCursor(p.nextCursor)
    requires i < |pages| && PageAnswers(st, q, CursorBefore(cursor, pages, i), pages[i]) && ValidCursor(cursor)
    ensures IsAnswer(Matching(st, q), PositionBefore(Position(cursor), AnswersIn(pages), i), q.limit,
                     AnswersIn(pages)[i])
    ensures AnswersIn(pages)[i].next.None? <==> pages[i].nextCursor == ""
  {
    assert PositionBefore(Position(cursor), AnswersIn(pages), i) == Position(CursorBefore(cursor, pages, i));
  }

  lemma {:induction false} AnswersChain(stores: seq<Store>, q: Query, cursor: string, pages: seq<Page>)
    requires |stores| == |pages| > 0 && forall i :: 0 <= i < |pages| - 1 ==> pages[i].nextCursor != ""
    requires forall i :: 0 <= i < |pages| ==> PageAnswers(stores[i], q, CursorBefore(cursor, pages, i), pages[i])
    ensures ValidCursor(cursor) && forall p :: p in pages ==> ValidCursor(p.nextCursor)
    ensures IsRun(MatchingIn(stores, q), q.limit, Position(cursor), AnswersIn(pages))
    ensures AnswersIn(pages)[|pages| - 1].next.None? <==> pages[|pages| - 1].nextCursor == ""
  {
    assert CursorBefore(cursor, pages, 0) == cursor;
    forall p | p in pages ensures ValidCursor(p.nextCursor) {
      var i :| 0 <= i < |pages| && pages[i] == p;
      assert PageAnswers(stores[i], q, CursorBefore(cursor, pages, i), pages[i]);
    }
    var answers := AnswersIn(pages);
    forall i | 0 <= i < |pages|
      ensures IsAnswer(MatchingIn(stores, q)[i], PositionBefore(Position(cursor), answers, i), q.limit, answers[i])
      ensures answers[i].next.None? <==> pages[i].nextCursor == ""
    {
      AnswerInChain(stores[i], q, cursor, pages, i);
    }
  }

  /** The pages of a client's run amount to a run of answers. */
  lemma {:induction false} ClientRunIsRun(stores: seq<Store>, q: Query, cursor: string, pages: seq<Page>)
    requires q.limit > 0 && IsClientRun(stores, q, cursor, pages)
    requires forall st :: st in stores ==> Storable(st)
    ensures ValidCursor(cursor) && forall p :: p in pages ==> ValidCursor(p.nextCursor)
    ensures IsRun(MatchingIn(stores, q), q.limit, Position(cursor), AnswersIn(pages))
    ensures AnswersIn(pages)[|pages| - 1].next.None? <==> pages[|pages| - 1].nextCursor == ""
  {
    forall i | 0 <= i < |pages| ensures PageAnswers(stores[i], q, CursorBefore(cursor, pages, i), pages[i]) {
      ClientRunAnswers(stores, q, cursor, pages, i);
    }
    AnswersChain(stores, q, cursor, pages);
  }

  /** What a client sees while the store changes, for any run of pages it fetches. */
  ghost predicate IsCleanRun(stores: seq<Store>, q: Query, pages: seq<Page>) {
    && q.limit > 0 && IsClientRun(stores, q, "", pages)
    && forall st :: st in stores ==> Storable(st)
  }

  ghost predicate ShownMatching(stores: seq<Store>, q: Query, pages: seq<Page>, r: Ref)
    requires |stores| == |pages|
  {
    exists i :: 0 <= i < |pages| && r in pages[i].Refs() && r in Matching(stores[i], q)
  }

  /** No article is repeated or out of order. */
  lemma {:induction false} ClientRunDescends(stores: seq<Store>, q: Query, pages: seq<Page>)
    requires IsCleanRun(stores, q, pages)
    ensures Descending(Seen(pages))
  {
    ClientRunIsRun(stores, q, "", pages);
    AnswersDeliverSeen(pages);
    RunIsDescending(MatchingIn(stores, q), q.limit, None, AnswersIn(pages));
  }

  /** Each article shown matched when its page was read. */
  lemma {:induction false} ClientRunShowsMatching(stores: seq<Store>, q: Query, pages: seq<Page>, r: Ref)
    returns (i: nat)
    requires IsCleanRun(stores, q, pages) && r in Seen(pages)
    ensures i < |pages| == |stores| && r in pages[i].Refs() && r in Matching(stores[i], q)
  {
    ClientRunIsRun(stores, q, "", pages);
    AnswersDeliverSeen(pages);
    i := RunIsSound(MatchingIn(stores, q), q.limit, None, AnswersIn(pages), r);
  }

  /** After the last page every article that matched throughout has been shown. */
  lemma {:induction false} ClientRunShowsAll(stores: seq<Store>, q: Query, pages: seq<Page>, r: Ref)
    requires IsCleanRun(stores, q, pages) && pages[|pages| - 1].nextCursor == ""
    requires forall st :: st in stores ==> r in Matching(st, q)
    ensures r in Seen(pages)
  {
    ClientRunIsRun(stores, q, "", pages);
    AnswersDeliverSeen(pages);
    RunIsComplete(MatchingIn(stores, q), q.limit, None, AnswersIn(pages), r);
  }

  /** The three together. */
  lemma {:induction false} ClientRunIsExact(stores: seq<Store>, q: Query, pages: seq<Page>)
    requires IsCleanRun(stores, q, pages)
    ensures Descending(Seen(pages))
    ensures forall r :: r in Seen(pages) ==> ShownMatching(stores, q, pages, r)
    ensures pages[|pages| - 1].nextCursor == "" ==>
      forall r :: (forall st :: st in stores ==> r in Matching(st, q)) ==> r in Seen(pages)
  {
    ClientRunDescends(stores, q, pages);
    forall r | r in Seen(pages) ensures ShownMatching(stores, q, pages, r) {
      var i := ClientRunShowsMatching(stores, q, pages, r);
    }
    if pages[|pages| - 1].nextCursor == "" {
      forall r | (forall st :: st in stores ==> r in Matching(st, q)) ensures r in Seen(pages) {
        ClientRunShowsAll(stores, q, pages, r);
      }
    }
  }
}
