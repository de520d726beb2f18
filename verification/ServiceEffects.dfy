/** What the service calls change in the tables and in the cache, told by their fields alone, and what
    a counts call answers afterwards. */
module ServiceEffects {
  import opened Collections
  import opened ArticleStore
  import opened Cache
  import opened UnreadService

  // ---------------------------------------------------------------------------------------
  // What stays as it is.
  // ---------------------------------------------------------------------------------------

  /** All statuses but the user's for the given articles. */
  ghost predicate SameStatusesBut(st: Store, st': Store, userID: int, ids: set<int>) {
    forall k: (int, int) :: !(k.0 == userID && k.1 in ids) ==>
      (k in st'.statuses <==> k in st.statuses) && (k in st.statuses ==> st'.statuses[k] == st.statuses[k])
  }

  /** All subscriptions but one. */
  ghost predicate SameSubscriptionsBut(st: Store, st': Store, userID: int, feedID: int) {
    forall k :: k != (userID, feedID) ==> (k in st'.subscriptions <==> k in st.subscriptions)
  }

  /** The cached counts and expiries of all users but one. */
  ghost predicate SameCacheBut(c: CacheState, c': CacheState, userID: int) {
    forall v :: v != userID ==>
      && (v in c'.counts <==> v in c.counts) && (v in c.counts ==> c'.counts[v] == c.counts[v])
      && (v in c'.refreshAt <==> v in c.refreshAt) && (v in c.refreshAt ==> c'.refreshAt[v] == c.refreshAt[v])
  }

  /** The user has no cached counts; the other users' are as before. */
  ghost predicate Dropped(c: CacheState, c': CacheState, userID: int) {
    userID !in c'.counts && userID !in c'.refreshAt && SameCacheBut(c, c', userID)
  }

  // ---------------------------------------------------------------------------------------
  // The writes.
  // ---------------------------------------------------------------------------------------

  /** Subscribing adds the one subscription and makes the marked articles unread and unstarred. */
  lemma {:induction false} SubscribeEffect(s: Service, u: int, f: int, marked: set<int>, s': Service, ttl: int,
                                           maxUsers: int)
    requires Step(s, Subscribe(u, f, marked), s', ttl, maxUsers)
    ensures (u, f) in s'.db.subscriptions && SameSubscriptionsBut(s.db, s'.db, u, f)
    ensures forall id :: id in marked ==>
      (u, id) in s'.db.statuses && !s'.db.statuses[(u, id)].isRead && !s'.db.statuses[(u, id)].isStarred
    ensures SameStatusesBut(s.db, s'.db, u, marked) && s'.db.articles == s.db.articles && s'.now == s.now
    ensures Dropped(s.cache, s'.cache, u)
  {
  }

  /** Unsubscribing removes the one subscription; the statuses stay for the cleanup. */
  lemma {:induction false} UnsubscribeEffect(s: Service, u: int, f: int, s': Service, ttl: int, maxUsers: int)
    requires Step(s, Unsubscribe(u, f), s', ttl, maxUsers)
    ensures (u, f) !in s'.db.subscriptions && SameSubscriptionsBut(s.db, s'.db, u, f)
    ensures s'.db.statuses == s.db.statuses && s'.db.articles == s.db.articles && s'.now == s.now
    ensures Dropped(s.cache, s'.cache, u)
  {
  }

  /** Marking an article keeps its star. */
  lemma {:induction false} MarkReadEffect(s: Service, u: int, a: int, isRead: bool, f: int, wasRead: bool, s': Service,
                                          ttl: int, maxUsers: int)
    requires Step(s, MarkRead(u, a, isRead, f, wasRead), s', ttl, maxUsers)
    ensures (u, a) in s'.db.statuses && s'.db.statuses[(u, a)].isRead == isRead
    ensures s'.db.statuses[(u, a)].isStarred <==> (u, a) in s.db.statuses && s.db.statuses[(u, a)].isStarred
    ensures SameStatusesBut(s.db, s'.db, u, {a}) && s'.db.subscriptions == s.db.subscriptions
    ensures s'.db.articles == s.db.articles && s'.now == s.now
  {
  }

  /** In the cache: without a feed the user's counts are dropped. With one, a cached count not past its
      expiry moves by one if the mark flips, down to zero at the least; nothing else changes. */
  lemma {:induction false} MarkReadInCache(s: Service, u: int, a: int, isRead: bool, f: int, wasRead: bool, s': Service,
                                           ttl: int, maxUsers: int)
    requires Step(s, MarkRead(u, a, isRead, f, wasRead), s', ttl, maxUsers)
    ensures f <= 0 ==> Dropped(s.cache, s'.cache, u)
    ensures f > 0 ==>
      if u in s.cache.counts && u in s.cache.refreshAt && s.now <= s.cache.refreshAt[u] && wasRead != isRead
      then var before := if f in s.cache.counts[u] then s.cache.counts[u][f] else 0;
        && SameCacheBut(s.cache, s'.cache, u) && s'.cache.refreshAt == s.cache.refreshAt && u in s'.cache.counts
        && s'.cache.counts[u].Keys == s.cache.counts[u].Keys + {f}
        && (forall g :: g in s.cache.counts[u] && g != f ==> s'.cache.counts[u][g] == s.cache.counts[u][g])
        && s'.cache.counts[u][f] == (if !isRead then before + 1 else if before > 0 then before - 1 else 0)
      else s'.cache == s.cache
  {
  }

  /** Toggling flips the star and keeps the read mark. */
  lemma {:induction false} ToggleStarEffect(s: Service, u: int, a: int, s': Service, ttl: int, maxUsers: int)
    requires Step(s, ToggleStar(u, a), s', ttl, maxUsers)
    ensures (u, a) in s'.db.statuses
    ensures s'.db.statuses[(u, a)].isStarred <==> !((u, a) in s.db.statuses && s.db.statuses[(u, a)].isStarred)
    ensures s'.db.statuses[(u, a)].isRead <==> (u, a) in s.db.statuses && s.db.statuses[(u, a)].isRead
    ensures SameStatusesBut(s.db, s'.db, u, {a}) && s'.db.subscriptions == s.db.subscriptions
    ensures s'.db.articles == s.db.articles && s'.now == s.now && s'.cache == s.cache
  {
  }

  /** The articles of the feeds the user is subscribed to. */
  ghost function Listed(st: Store, userID: int): set<int> {
    set id | id in st.articles && (userID, st.articles[id].feedID) in st.subscriptions
  }

  /** Marking all makes every listed article read, and takes its star. */
  lemma {:induction false} MarkAllReadEffect(s: Service, u: int, s': Service, ttl: int, maxUsers: int)
    requires Step(s, MarkAllRead(u), s', ttl, maxUsers)
    ensures forall id :: id in Listed(s.db, u) ==>
      (u, id) in s'.db.statuses && s'.db.statuses[(u, id)].isRead && !s'.db.statuses[(u, id)].isStarred
    ensures SameStatusesBut(s.db, s'.db, u, Listed(s.db, u)) && s'.db.subscriptions == s.db.subscriptions
    ensures s'.db.articles == s.db.articles && s'.now == s.now
    ensures Dropped(s.cache, s'.cache, u)
  {
  }

  // ---------------------------------------------------------------------------------------
  // The counts.
  // ---------------------------------------------------------------------------------------

  /** An article of the feed that is at most 90 days old. */
  ghost predicate Recent(st: Store, id: int, feedID: int, now: int) {
    && id in st.articles && st.articles[id].feedID == feedID
    && now - st.articles[id].publishedAt <= 7_776_000_000_000_000
  }

  /** The recent articles of the feed that the user has not read. */
  ghost function UnreadRecently(st: Store, userID: int, feedID: int, now: int): set<int> {
    set id | id in st.articles && Recent(st, id, feedID, now)
          && !((userID, id) in st.statuses && st.statuses[(userID, id)].isRead)
  }

  ghost predicate Cached(s: Service, userID: int) {
    userID in s.cache.counts && userID in s.cache.refreshAt && s.now <= s.cache.refreshAt[userID]
  }

  /** A counts call answers what is cached and not past its expiry. Otherwise it lists the feeds asked for
      that the user is subscribed to, each with its unread number, and caches that for the TTL. */
  lemma {:induction false} CountsEffect(s: Service, u: int, userFeeds: set<int>, s': Service, ttl: int, maxUsers: int)
    requires Step(s, Counts(u, userFeeds), s', ttl, maxUsers)
    ensures s'.db == s.db && s'.now == s.now
    ensures Cached(s, u) ==> AnswerTo(s, u, userFeeds) == s.cache.counts[u] && s' == s
    ensures !Cached(s, u) ==> var answer := AnswerTo(s, u, userFeeds);
      && (forall f :: f in answer <==> f in userFeeds && (u, f) in s.db.subscriptions)
      && (forall f :: f in answer ==> answer[f] == |UnreadRecently(s.db, u, f, s.now)|)
      && u in s'.cache.counts && s'.cache.counts[u] == answer
      && u in s'.cache.refreshAt && s'.cache.refreshAt[u] == s.now + ttl
  {
    if !Cached(s, u) {
      forall f ensures Unread(s.db, u, f, s.now) == UnreadRecently(s.db, u, f, s.now) {
        SameSet(Unread(s.db, u, f, s.now), UnreadRecently(s.db, u, f, s.now));
      }
      forall f ensures f in UserFeeds(s.db, u) <==> (u, f) in s.db.subscriptions {
      }
    }
  }

  /** The next counts call after subscribing lists the feed, with the marked articles among the unread
      ones; after unsubscribing it does not list it. */
  lemma {:induction false} CountsFollowSubscription(s: Service, op: Op, s': Service, userFeeds: set<int>, s'': Service,
                                                    ttl: int, maxUsers: int)
    requires op.Subscribe? || op.Unsubscribe?
    requires Step(s, op, s', ttl, maxUsers) && Step(s', Counts(op.userID, userFeeds), s'', ttl, maxUsers)
    ensures var answer := AnswerTo(s', op.userID, userFeeds);
      && (op.Unsubscribe? ==> op.feedID !in answer)
      && (op.Subscribe? && op.feedID in userFeeds ==>
            && op.feedID in answer
            && answer[op.feedID] == |UnreadRecently(s'.db, op.userID, op.feedID, s.now)|
            && (forall id :: id in op.marked && Recent(s.db, id, op.feedID, s.now) ==>
                  id in UnreadRecently(s'.db, op.userID, op.feedID, s.now)))
  {
    CountsEffect(s', op.userID, userFeeds, s'', ttl, maxUsers);
  }
}
