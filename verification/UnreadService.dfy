/** Unread counts as the feed service serves them: database writes, the incrementally adjusted
    cache, and how far a cache hit can drift from a recount.

    One clock reading is taken per call. Times are counted from Go's zero time. */
module UnreadService {
  import opened Collections
  import opened ArticleStore
  import opened Cache
  import U = UnreadCounts

  const NANOS_PER_DAY: int := 24 * 3600 * 1_000_000_000
  const UNREAD_WINDOW: int := 90 * NANOS_PER_DAY

  // ---------------------------------------------------------------------------------------
  // The database writes behind the service calls.
  // ---------------------------------------------------------------------------------------

  function MarkedRead(st: Store, userID: int, articleID: int, isRead: bool): Store {
    st.(statuses := st.statuses[(userID, articleID) := Status(isRead, st.IsStarred(userID, articleID))])
  }

  function StarToggled(st: Store, userID: int, articleID: int): Store {
    st.(statuses := st.statuses[(userID, articleID) :=
      Status(st.IsRead(userID, articleID), !st.IsStarred(userID, articleID))])
  }

  function Overwritten(st: Store, userID: int, ids: set<int>, status: Status): Store {
    var written := set id | id in ids :: (userID, id);
    st.(statuses := map k | k in st.statuses.Keys + written :: if k in written then status else st.statuses[k])
  }

  function SubscribedArticles(st: Store, userID: int): set<int> {
    set id | id in st.articles && st.Subscribed(userID, st.articles[id].feedID)
  }

  /** Everything in the user's feeds becomes read and unstarred. */
  function AllMarkedRead(st: Store, userID: int): Store {
    Overwritten(st, userID, SubscribedArticles(st, userID), Status(true, false))
  }

  /** Subscribing also writes an unread status for the chosen existing articles of the feed. */
  function SubscribedTo(st: Store, userID: int, feedID: int, marked: set<int>): Store {
    Overwritten(st.(subscriptions := st.subscriptions + {(userID, feedID)}), userID, marked, Status(false, false))
  }

  function UnsubscribedFrom(st: Store, userID: int, feedID: int): Store {
    st.(subscriptions := st.subscriptions - {(userID, feedID)})
  }

  function UserFeeds(st: Store, userID: int): set<int> {
    set p | p in st.subscriptions && p.0 == userID :: p.1
  }

  function Unread(st: Store, userID: int, feedID: int, now: int): set<int> {
    U.UnreadIn(st, userID, feedID, now - UNREAD_WINDOW)
  }

  /** What a recount of all of the user's feeds returns. */
  function Recount(st: Store, userID: int, now: int): map<int, int> {
    map f | f in UserFeeds(st, userID) :: |Unread(st, userID, f, now)|
  }

  /** Only feeds the caller lists are kept. */
  function Filtered(counts: map<int, int>, valid: set<int>): map<int, int> {
    map f | f in counts && f in valid :: counts[f]
  }

  // ---------------------------------------------------------------------------------------
  // The service as a state machine.
  // ---------------------------------------------------------------------------------------

  datatype Service = Service(db: Store, cache: CacheState, now: int)

  datatype Op =
    | MarkRead(userID: int, articleID: int, isRead: bool, feedID: int, wasRead: bool)
    | ToggleStar(userID: int, articleID: int)
    | MarkAllRead(userID: int)
    | Subscribe(userID: int, feedID: int, marked: set<int>)
    | Unsubscribe(userID: int, feedID: int)
    | Counts(userID: int, userFeeds: set<int>)
    | Arrive(articleID: int, article: Article)
    | Tick(now: int)
    | Sweep

  /** The answer to a counts call. */
  function AnswerTo(s: Service, userID: int, userFeeds: set<int>): map<int, int> {
    if s.cache.Hit(userID, s.now) then s.cache.counts[userID]
    else Filtered(Recount(s.db, userID, s.now), userFeeds)
  }

  ghost predicate Step(s: Service, op: Op, s': Service, ttl: int, maxUsers: int) {
    match op
    case MarkRead(u, a, isRead, f, wasRead) =>
      s' == Service(MarkedRead(s.db, u, a, isRead),
                    if f > 0 then s.cache.Adjusted(u, f, wasRead, isRead, s.now) else s.cache.Without(u), s.now)
    case ToggleStar(u, a) => s' == s.(db := StarToggled(s.db, u, a))
    case MarkAllRead(u) => s' == Service(AllMarkedRead(s.db, u), s.cache.Without(u), s.now)
    case Subscribe(u, f, marked) => s' == Service(SubscribedTo(s.db, u, f, marked), s.cache.Without(u), s.now)
    case Unsubscribe(u, f) => s' == Service(UnsubscribedFrom(s.db, u, f), s.cache.Without(u), s.now)
    case Counts(u, userFeeds) =>
      if s.cache.Hit(u, s.now) then s' == s
      else s'.db == s.db && s'.now == s.now
           && SetTo(s.cache, s'.cache, u, AnswerTo(s, u, userFeeds), s.now + ttl, maxUsers)
    case Arrive(id, article) => s' == s.(db := s.db.(articles := s.db.articles[id := article]))
    case Tick(now) => s' == s.(now := now)
    case Sweep => s' == s.(cache := s.cache.Pruned(s.now))
  }

  /** What callers and the clock promise: the client reports the article's feed and its previous
      status as they are, the feed list is current, article ids are new, time does not go back. */
  ghost predicate Truthful(s: Service, op: Op) {
    match op
    case MarkRead(u, a, isRead, f, wasRead) =>
      a in s.db.articles && (f > 0 ==> f == s.db.articles[a].feedID) && wasRead == s.db.IsRead(u, a)
    case Counts(u, userFeeds) => UserFeeds(s.db, u) <= userFeeds
    case Arrive(id, _) => id !in s.db.articles
    case Tick(now) => now >= s.now
    case _ => true
  }

  /** Ranging over the recount, in any order, and keeping listed feeds. */
  method FilterCounts(unreadCounts: map<int, int>, validFeedIDs: set<int>) returns (filteredCounts: map<int, int>)
    ensures filteredCounts == Filtered(unreadCounts, validFeedIDs)
  {
    filteredCounts := map[];
    var pending := unreadCounts.Keys;
    while pending != {}
      invariant pending <= unreadCounts.Keys
      invariant forall f :: f in filteredCounts <==> f in unreadCounts && f !in pending && f in validFeedIDs
      invariant forall f :: f in filteredCounts ==> filteredCounts[f] == unreadCounts[f]
    {
      var f := AnyOf(pending);
      pending := pending - {f};
      if f in validFeedIDs {
        filteredCounts := filteredCounts[f := unreadCounts[f]];
      }
    }
    ghost var spec := Filtered(unreadCounts, validFeedIDs);
    forall f ensures f in filteredCounts <==> f in spec {
    }
    forall f | f in filteredCounts ensures filteredCounts[f] == spec[f] {
    }
    SameMap(filteredCounts, spec);
  }

  class FeedService {
    var db: Store
    const unreadCache: UnreadCache

    constructor (db: Store, unreadCache: UnreadCache)
      ensures this.db == db && this.unreadCache == unreadCache
    {
      this.db, this.unreadCache := db, unreadCache;
    }

    ghost function Snapshot(now: int): Service
      reads this, unreadCache
    {
      Service(db, unreadCache.State(), now)
    }

    method MarkUserArticleRead(userID: int, articleID: int, isRead: bool, feedID: int, wasRead: bool, now: int)
      requires unreadCache.State().Valid()
      modifies this, unreadCache`counts, unreadCache`refreshAt
      ensures Step(old(Snapshot(now)), MarkRead(userID, articleID, isRead, feedID, wasRead), Snapshot(now),
                   unreadCache.ttl, unreadCache.maxUsers)
    {
      db := MarkedRead(db, userID, articleID, isRead);
      if feedID > 0 {
        unreadCache.UpdateCount(userID, feedID, wasRead, isRead, now);
      } else {
        unreadCache.Invalidate(userID);
      }
    }

    method ToggleUserArticleStar(userID: int, articleID: int, ghost now: int)
      modifies this
      ensures Step(old(Snapshot(now)), ToggleStar(userID, articleID), Snapshot(now),
                   unreadCache.ttl, unreadCache.maxUsers)
    {
      db := StarToggled(db, userID, articleID);
    }

    method MarkAllArticlesRead(userID: int, ghost now: int)
      modifies this, unreadCache`counts, unreadCache`refreshAt
      ensures Step(old(Snapshot(now)), MarkAllRead(userID), Snapshot(now),
                   unreadCache.ttl, unreadCache.maxUsers)
    {
      db := AllMarkedRead(db, userID);
      unreadCache.Invalidate(userID);
    }

    method SubscribeUserToFeed(userID: int, feedID: int, marked: set<int>, ghost now: int)
      modifies this, unreadCache`counts, unreadCache`refreshAt
      ensures Step(old(Snapshot(now)), Subscribe(userID, feedID, marked), Snapshot(now),
                   unreadCache.ttl, unreadCache.maxUsers)
    {
      db := SubscribedTo(db, userID, feedID, marked);
      unreadCache.Invalidate(userID);
    }

    method UnsubscribeUserFromFeed(userID: int, feedID: int, ghost now: int)
      modifies this, unreadCache`counts, unreadCache`refreshAt
      ensures Step(old(Snapshot(now)), Unsubscribe(userID, feedID), Snapshot(now),
                   unreadCache.ttl, unreadCache.maxUsers)
    {
      db := UnsubscribedFrom(db, userID, feedID);
      unreadCache.Invalidate(userID);
    }

    method GetUserUnreadCounts(userID: int, userFeeds: set<int>, now: int) returns (counts: map<int, int>)
      requires unreadCache.State().Valid() && now + unreadCache.ttl > ZERO_TIME
      modifies unreadCache
      ensures counts == AnswerTo(old(Snapshot(now)), userID, userFeeds)
      ensures Step(old(Snapshot(now)), Counts(userID, userFeeds), Snapshot(now),
                   unreadCache.ttl, old(unreadCache.maxUsers))
    {
      var cached, hit := unreadCache.Get(userID, now);
      if hit {
        return cached;
      }
      var unreadCounts := Recount(db, userID, now);
      var filteredCounts := FilterCounts(unreadCounts, userFeeds);
      unreadCache.Set(userID, filteredCounts, now);
      counts := filteredCounts;
    }
  }

  // ---------------------------------------------------------------------------------------
  // Drift of one user's count for one feed.
  // ---------------------------------------------------------------------------------------

  /** Articles of the feed that leave the window as the clock moves. */
  ghost function AgedOut(st: Store, feedID: int, now: int, now': int): set<int> {
    U.InWindow(st, feedID, now - UNREAD_WINDOW) - U.InWindow(st, feedID, now' - UNREAD_WINDOW)
  }

  /** The events since the user's counts were last stored that a cached count cannot know of:
      arrivals, age-outs, and status flips of articles outside the window. */
  ghost function DriftAfter(s: Service, op: Op, u: int, f: int, drift: nat): nat {
    match op
    case Arrive(_, article) => if article.feedID == f then drift + 1 else drift
    case Tick(now) => drift + |AgedOut(s.db, f, s.now, now)|
    case MarkRead(v, a, isRead, _, wasRead) =>
      if v == u && wasRead != isRead && a in s.db.FeedArticles(f)
         && a !in U.InWindow(s.db, f, s.now - UNREAD_WINDOW) then drift + 1 else drift
    case Counts(v, _) => if v == u && !s.cache.Hit(u, s.now) then 0 else drift
    case _ => drift
  }

  predicate Within(a: int, b: int, d: nat) {
    a - b <= d && b - a <= d
  }

  /** A hit for the user is within `drift` of a recount, for every feed subscribed to. */
  ghost predicate Bounded(s: Service, u: int, f: int, drift: nat) {
    && s.cache.Valid()
    && (s.cache.Hit(u, s.now) && s.db.Subscribed(u, f) ==>
          && 0 <= s.cache.Count(u, f)
          && Within(s.cache.Count(u, f), |Unread(s.db, u, f, s.now)|, drift))
  }

  lemma {:induction false} SameReadsSameUnread(st: Store, st': Store, u: int, f: int, now: int)
    requires st'.articles == st.articles
    requires forall id :: st'.IsRead(u, id) == st.IsRead(u, id)
    ensures Unread(st', u, f, now) == Unread(st, u, f, now)
  {
    SameSet(Unread(st', u, f, now), Unread(st, u, f, now));
  }

  lemma {:induction false} MarkReadCount(st: Store, u: int, a: int, isRead: bool, f: int, now: int)
    requires a in st.articles
    ensures |Unread(MarkedRead(st, u, a, isRead), u, f, now)| - |Unread(st, u, f, now)|
         == (if a !in U.InWindow(st, f, now - UNREAD_WINDOW) || isRead == st.IsRead(u, a) then 0
             else if isRead then -1 else 1)
  {
    var before, after := Unread(st, u, f, now), Unread(MarkedRead(st, u, a, isRead), u, f, now);
    if a in U.InWindow(st, f, now - UNREAD_WINDOW) && isRead {
      SameSet(after, before - {a});
    } else if a in U.InWindow(st, f, now - UNREAD_WINDOW) {
      SameSet(after, before + {a});
    } else {
      SameSet(after, before);
    }
  }

  lemma {:induction false} MarkReadKeepsBound(s: Service, op: Op, s': Service, u: int, f: int, drift: nat,
                                              ttl: int, maxUsers: int)
    requires op.MarkRead? && Step(s, op, s', ttl, maxUsers) && Truthful(s, op) && Bounded(s, u, f, drift)
    ensures Bounded(s', u, f, DriftAfter(s, op, u, f, drift))
  {
    if op.userID == u {
      MarkReadCount(s.db, u, op.articleID, op.isRead, f, s.now);
    } else {
      SameReadsSameUnread(s.db, s'.db, u, f, s.now);
    }
  }

  lemma {:induction false} OverwriteKeepsOthers(st: Store, v: int, ids: set<int>, status: Status, u: int, id: int)
    requires u != v
    ensures Overwritten(st, v, ids, status).IsRead(u, id) == st.IsRead(u, id)
  {
  }

  /** Mark-all, subscribe and unsubscribe drop the caller's counts and touch nobody else's. */
  lemma {:induction false} InvalidatingKeepsBound(s: Service, op: Op, s': Service, u: int, f: int, drift: nat,
                                                  ttl: int, maxUsers: int)
    requires op.MarkAllRead? || op.Subscribe? || op.Unsubscribe?
    requires Step(s, op, s', ttl, maxUsers) && Bounded(s, u, f, drift)
    ensures Bounded(s', u, f, drift)
  {
    if op.userID != u {
      forall id ensures s'.db.IsRead(u, id) == s.db.IsRead(u, id) {
        match op
        case MarkAllRead(v) =>
          OverwriteKeepsOthers(s.db, v, SubscribedArticles(s.db, v), Status(true, false), u, id);
        case Subscribe(v, g, marked) =>
          var joined := s.db.(subscriptions := s.db.subscriptions + {(v, g)});
          OverwriteKeepsOthers(joined, v, marked, Status(false, false), u, id);
        case Unsubscribe(v, g) =>
      }
      SameReadsSameUnread(s.db, s'.db, u, f, s.now);
    }
  }

  /** A miss stores the recount itself; somebody else's miss at most evicts the user. */
  lemma {:induction false} CountsKeepsBound(s: Service, op: Op, s': Service, u: int, f: int, drift: nat,
                                            ttl: int, maxUsers: int)
    requires op.Counts? && Step(s, op, s', ttl, maxUsers) && Truthful(s, op) && Bounded(s, u, f, drift)
    requires s.now + ttl > ZERO_TIME
    ensures Bounded(s', u, f, DriftAfter(s, op, u, f, drift))
  {
    if !s.cache.Hit(op.userID, s.now) {
      var c := AnswerTo(s, op.userID, op.userFeeds);
      if AtCapacity(s.cache, op.userID, maxUsers) {
        var e :| IsEarliest(s.cache, e) && s'.cache == s.cache.Without(e).Stored(op.userID, c, s.now + ttl);
      }
      if op.userID == u && s.db.Subscribed(u, f) {
        assert (u, f) in s.db.subscriptions && f in UserFeeds(s.db, u);
        assert s'.cache.Count(u, f) == |Unread(s.db, u, f, s.now)|;
      }
    }
  }

  lemma {:induction false} ArriveKeepsBound(s: Service, op: Op, s': Service, u: int, f: int, drift: nat,
                                            ttl: int, maxUsers: int)
    requires op.Arrive? && Step(s, op, s', ttl, maxUsers) && Truthful(s, op) && Bounded(s, u, f, drift)
    ensures Bounded(s', u, f, DriftAfter(s, op, u, f, drift))
  {
    var before, after := Unread(s.db, u, f, s.now), Unread(s'.db, u, f, s.now);
    if op.articleID in after {
      SameSet(after, before + {op.articleID});
    } else {
      SameSet(after, before);
    }
  }

  lemma {:induction false} TickKeepsBound(s: Service, op: Op, s': Service, u: int, f: int, drift: nat,
                                          ttl: int, maxUsers: int)
    requires op.Tick? && Step(s, op, s', ttl, maxUsers) && Truthful(s, op) && Bounded(s, u, f, drift)
    ensures Bounded(s', u, f, DriftAfter(s, op, u, f, drift))
  {
    var before, after := Unread(s.db, u, f, s.now), Unread(s.db, u, f, op.now);
    var aged := AgedOut(s.db, f, s.now, op.now);
    SubsetCardinality(before - after, aged);
    SubsetCardinality(after, before);
    SameSet(before, after + (before - after));
    assert |before| == |after| + |before - after|;
  }

  lemma {:induction false} StepKeepsBound(s: Service, op: Op, s': Service, u: int, f: int, drift: nat,
                                          ttl: int, maxUsers: int)
    requires Step(s, op, s', ttl, maxUsers) && Truthful(s, op) && Bounded(s, u, f, drift)
    requires s.now + ttl > ZERO_TIME
    ensures Bounded(s', u, f, DriftAfter(s, op, u, f, drift))
  {
    match op
    case MarkRead(_, _, _, _, _) => MarkReadKeepsBound(s, op, s', u, f, drift, ttl, maxUsers);
    case ToggleStar(_, _) => SameReadsSameUnread(s.db, s'.db, u, f, s.now);
    case MarkAllRead(_) => InvalidatingKeepsBound(s, op, s', u, f, drift, ttl, maxUsers);
    case Subscribe(_, _, _) => InvalidatingKeepsBound(s, op, s', u, f, drift, ttl, maxUsers);
    case Unsubscribe(_, _) => InvalidatingKeepsBound(s, op, s', u, f, drift, ttl, maxUsers);
    case Counts(_, _) => CountsKeepsBound(s, op, s', u, f, drift, ttl, maxUsers);
    case Arrive(_, _) => ArriveKeepsBound(s, op, s', u, f, drift, ttl, maxUsers);
    case Tick(_) => TickKeepsBound(s, op, s', u, f, drift, ttl, maxUsers);
    case Sweep =>
  }

  /** Where the user's count for the feed is served from the cache, before and after. */
  ghost predicate StaysCached(s: Service, s': Service, u: int, f: int) {
    s.cache.Hit(u, s.now) && s'.cache.Hit(u, s'.now) && s.db.Subscribed(u, f)
  }

  /** How far the cached count lags behind a recount; negative when it is ahead. */
  ghost function Lag(s: Service, u: int, f: int): int {
    |Unread(s.db, u, f, s.now)| - s.cache.Count(u, f)
  }

  lemma {:induction false} ArrivalIsUnread(st: Store, id: int, article: Article, u: int, now: int)
    requires id !in st.articles && !st.IsRead(u, id) && article.publishedAt >= now - UNREAD_WINDOW
    ensures var after := st.(articles := st.articles[id := article]);
      |Unread(after, u, article.feedID, now)| == |Unread(st, u, article.feedID, now)| + 1
  {
    var after := st.(articles := st.articles[id := article]);
    SameSet(Unread(after, u, article.feedID, now), Unread(st, u, article.feedID, now) + {id});
  }

  /** The bound cannot be improved: a count that has drifted as far as allowed drifts on with the next
      recent arrival; or, in the other direction, when unread articles age out, or an article outside
      the window is marked unread. */
  lemma {:induction false} ArrivalDriftIsSharp(s: Service, op: Op, s': Service, u: int, f: int, drift: nat,
                                               ttl: int, maxUsers: int)
    requires Step(s, op, s', ttl, maxUsers) && Truthful(s, op) && StaysCached(s, s', u, f)
    requires op.Arrive? && op.article.feedID == f && op.article.publishedAt >= s.now - UNREAD_WINDOW
    requires !s.db.IsRead(u, op.articleID) && Lag(s, u, f) == drift
    ensures Lag(s', u, f) == DriftAfter(s, op, u, f, drift)
  {
    ArrivalIsUnread(s.db, op.articleID, op.article, u, s.now);
  }

  lemma {:induction false} AgingDriftIsSharp(s: Service, op: Op, s': Service, u: int, f: int, drift: nat,
                                             ttl: int, maxUsers: int)
    requires Step(s, op, s', ttl, maxUsers) && Truthful(s, op) && StaysCached(s, s', u, f)
    requires op.Tick? && (forall id :: id in AgedOut(s.db, f, s.now, op.now) ==> !s.db.IsRead(u, id))
    requires -Lag(s, u, f) == drift
    ensures -Lag(s', u, f) == DriftAfter(s, op, u, f, drift)
  {
    var before, after := Unread(s.db, u, f, s.now), Unread(s.db, u, f, op.now);
    SameSet(before, after + AgedOut(s.db, f, s.now, op.now));
  }

  lemma {:induction false} FlipDriftIsSharp(s: Service, op: Op, s': Service, u: int, f: int, drift: nat,
                                            ttl: int, maxUsers: int)
    requires Step(s, op, s', ttl, maxUsers) && Truthful(s, op) && StaysCached(s, s', u, f)
    requires op.MarkRead? && op.userID == u && op.feedID == f > 0 && op.wasRead && !op.isRead
    requires op.articleID !in U.InWindow(s.db, f, s.now - UNREAD_WINDOW) && -Lag(s, u, f) == drift
    ensures -Lag(s', u, f) == DriftAfter(s, op, u, f, drift)
  {
    MarkReadCount(s.db, u, op.articleID, op.isRead, f, s.now);
  }

  /** A run of truthful calls, with the clock running. */
  ghost predicate IsRun(states: seq<Service>, ops: seq<Op>, ttl: int, maxUsers: int) {
    && |states| == |ops| + 1
    && forall i :: 0 <= i < |ops| ==>
         Step(states[i], ops[i], states[i + 1], ttl, maxUsers) && Truthful(states[i], ops[i])
         && states[i].now + ttl > ZERO_TIME
  }

  /** Drift accumulated by the first n operations of a run. */
  ghost function DriftAt(states: seq<Service>, ops: seq<Op>, u: int, f: int, n: nat): nat
    requires |states| == |ops| + 1 && n <= |ops|
  {
    if n == 0 then 0 else DriftAfter(states[n - 1], ops[n - 1], u, f, DriftAt(states, ops, u, f, n - 1))
  }

  lemma {:induction false} RunsStayBounded(states: seq<Service>, ops: seq<Op>, ttl: int, maxUsers: int, u: int,
                                           f: int, n: nat)
    requires IsRun(states, ops, ttl, maxUsers) && states[0].cache == EMPTY && n <= |ops|
    ensures Bounded(states[n], u, f, DriftAt(states, ops, u, f, n))
  {
    if n > 0 {
      RunsStayBounded(states, ops, ttl, maxUsers, u, f, n - 1);
      StepKeepsBound(states[n - 1], ops[n - 1], states[n], u, f, DriftAt(states, ops, u, f, n - 1), ttl, maxUsers);
    }
  }

  /** The drift bound: at any point of any run that starts with an empty cache, what a counts call
      answers for a subscribed feed differs from a recount by at most the arrivals, age-outs and
      out-of-window flips since the user's counts were last stored. With none of these it is exact,
      although single updates may have been clamped at zero. */
  lemma {:induction false} AnswersStayClose(states: seq<Service>, ops: seq<Op>, ttl: int, maxUsers: int,
                                            u: int, f: int, n: nat, userFeeds: set<int>)
    requires IsRun(states, ops, ttl, maxUsers) && states[0].cache == EMPTY && n <= |ops|
    requires states[n].db.Subscribed(u, f) && UserFeeds(states[n].db, u) <= userFeeds
    ensures var answer := AnswerTo(states[n], u, userFeeds);
      var shown := if f in answer then answer[f] else 0;
      var exact := |Unread(states[n].db, u, f, states[n].now)|;
      var drift := DriftAt(states, ops, u, f, n);
      && shown >= 0 && Within(shown, exact, drift)
      && (!states[n].cache.Hit(u, states[n].now) ==> shown == exact)
  {
    RunsStayBounded(states, ops, ttl, maxUsers, u, f, n);
    assert (u, f) in states[n].db.subscriptions && f in UserFeeds(states[n].db, u);
  }
}
