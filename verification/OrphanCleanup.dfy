/** The Datastore cleanup of user-article statuses whose article is gone or whose feed the user has
    left: pages of 500 keys, batched lookups kept aligned with their candidates, one batched delete
    per page. */
module OrphanCleanup {
  import opened Results
  import opened Collections
  import opened ArticleStore

  const BATCH_SIZE: nat := 500

  /** A status key is named "<user>_<article>"; names that do not parse are skipped. */
  datatype Key = Pair(userID: int, articleID: int) | Malformed(name: string)

  datatype FeedReply = Found | NoSuchEntity | OtherError

  /** What the cleanup reads, and which reads fail other than by "no such entity": article reads by
      id, subscription reads by pair, whole page batches and page cursors by page position. */
  datatype World = World(
    articles: map<int, Article>, subscriptions: set<(int, int)>,
    articleFaults: set<int>, feedFaults: set<(int, int)>,
    batchFaults: set<int>, cursorFaults: set<int>)
  {
    function ArticleReply(id: int): Option<Article> {
      if id in articles && id !in articleFaults then Some(articles[id]) else None
    }

    function UserFeedReply(userID: int, feedID: int): FeedReply {
      if (userID, feedID) in feedFaults then OtherError
      else if (userID, feedID) in subscriptions then Found
      else NoSuchEntity
    }

    predicate OldEnough(a: Article, olderThanDays: int, cutoff: int) {
      !(olderThanDays > 0 && a.createdAt > cutoff)
    }

    /** Nobody can see this status any more. */
    predicate Orphaned(k: Key, olderThanDays: int, cutoff: int) {
      k.Pair? &&
      (k.articleID in articles ==>
         && OldEnough(articles[k.articleID], olderThanDays, cutoff)
         && (k.userID, articles[k.articleID].feedID) !in subscriptions)
    }

    /** What one run removes, given the reads that fail. */
    predicate Removable(k: Key, olderThanDays: int, cutoff: int) {
      k.Pair? &&
      match ArticleReply(k.articleID)
      case None => true
      case Some(a) =>
        OldEnough(a, olderThanDays, cutoff) && UserFeedReply(k.userID, a.feedID) == NoSuchEntity
    }

    /** The article is there and old enough: the subscription decides. */
    predicate AwaitsCheck(k: Key, olderThanDays: int, cutoff: int) {
      k.Pair? && ArticleReply(k.articleID).Some? && OldEnough(articles[k.articleID], olderThanDays, cutoff)
    }

    function SubscriptionKey(k: Key): (int, int)
      requires k.Pair? && k.articleID in articles
    {
      (k.userID, articles[k.articleID].feedID)
    }

    predicate Unsubscribed(pair: (int, int)) {
      UserFeedReply(pair.0, pair.1) == NoSuchEntity
    }

    predicate OnlyNotFoundErrors() {
      articleFaults == {} && feedFaults == {}
    }
  }

  /** The page of live keys from position `from` of the key order on. */
  function PageFrom(order: seq<Key>, live: set<Key>, from: nat, n: nat): seq<Key>
    requires from <= |order|
    decreases |order| - from
  {
    if n == 0 || from == |order| then []
    else if order[from] in live then [order[from]] + PageFrom(order, live, from + 1, n - 1)
    else PageFrom(order, live, from + 1, n)
  }

  lemma {:induction false} UntouchedPage(order: seq<Key>, live: set<Key>, from: nat, n: nat)
    requires from <= |order| && forall i :: from <= i < |order| ==> order[i] in live
    ensures PageFrom(order, live, from, n) == order[from..Min(from + n, |order|)]
    decreases |order| - from
  {
    if n > 0 && from < |order| {
      UntouchedPage(order, live, from + 1, n - 1);
      var end := Min(from + n, |order|);
      assert end == Min(from + 1 + (n - 1), |order|) && from < end <= |order|;
      assert order[from..end] == [order[from]] + order[from + 1..end];
    }
  }

  /** The keys of one page that parse. */
  method ParseKeys(keys: seq<Key>) returns (candidates: seq<Key>)
    requires Distinct(keys)
    ensures Distinct(candidates)
    ensures forall k :: k in candidates <==> k in keys && k.Pair?
  {
    candidates := [];
    var i := 0;
    while i < |keys|
      invariant 0 <= i <= |keys| && Distinct(candidates)
      invariant forall k :: k in candidates <==> k in keys[..i] && k.Pair?
    {
      assert keys[..i + 1] == keys[..i] + [keys[i]];
      if keys[i].Pair? {
        assert keys[i] !in keys[..i];
        DistinctConcat(candidates, [keys[i]]);
        candidates := candidates + [keys[i]];
      }
      i := i + 1;
    }
    assert keys[..i] == keys;
  }

  /** First pass over the article replies: what is deleted at once, and what awaits a subscription
      check, with its subscription keys index by index. */
  method SplitByArticle(w: World, candidates: seq<Key>, olderThanDays: int, cutoff: int)
    returns (keysToDelete: seq<Key>, pending: seq<Key>, userFeedKeys: seq<(int, int)>)
    requires Distinct(candidates) && forall k :: k in candidates ==> k.Pair?
    ensures Distinct(keysToDelete) && Distinct(pending) && |userFeedKeys| == |pending|
    ensures forall k :: k in keysToDelete <==> k in candidates && w.ArticleReply(k.articleID).None?
    ensures forall k :: k in pending <==> k in candidates && w.AwaitsCheck(k, olderThanDays, cutoff)
    ensures forall i :: 0 <= i < |pending| ==>
      w.AwaitsCheck(pending[i], olderThanDays, cutoff) && userFeedKeys[i] == w.SubscriptionKey(pending[i])
  {
    keysToDelete, pending, userFeedKeys := [], [], [];
    var i := 0;
    while i < |candidates|
      invariant 0 <= i <= |candidates|
      invariant Distinct(keysToDelete) && Distinct(pending) && |userFeedKeys| == |pending|
      invariant forall k :: k in keysToDelete <==> k in candidates[..i] && w.ArticleReply(k.articleID).None?
      invariant forall k :: k in pending <==> k in candidates[..i] && w.AwaitsCheck(k, olderThanDays, cutoff)
      invariant forall j :: 0 <= j < |pending| ==>
        w.AwaitsCheck(pending[j], olderThanDays, cutoff) && userFeedKeys[j] == w.SubscriptionKey(pending[j])
    {
      var c := candidates[i];
      assert candidates[..i + 1] == candidates[..i] + [c];
      assert c !in candidates[..i];
      var reply := w.ArticleReply(c.articleID);
      if reply.None? {
        DistinctConcat(keysToDelete, [c]);
        keysToDelete := keysToDelete + [c];
      } else {
        var article := reply.value;
        if olderThanDays > 0 && article.createdAt > cutoff {
        } else {
          DistinctConcat(pending, [c]);
          userFeedKeys := userFeedKeys + [(c.userID, article.feedID)];
          pending := pending + [c];
        }
      }
      i := i + 1;
    }
    assert candidates[..i] == candidates;
  }

  ghost predicate UnsubscribedBefore(w: World, pending: seq<Key>, userFeedKeys: seq<(int, int)>, n: nat, k: Key)
    requires n <= |pending| == |userFeedKeys|
  {
    exists i :: 0 <= i < n && pending[i] == k && w.Unsubscribed(userFeedKeys[i])
  }

  /** Second pass: candidates whose subscription is known not to exist. */
  method AddUnsubscribed(w: World, pending: seq<Key>, userFeedKeys: seq<(int, int)>, found: seq<Key>)
    returns (keysToDelete: seq<Key>)
    requires Distinct(pending) && Distinct(found) && |userFeedKeys| == |pending|
    requires forall k :: k in pending ==> k !in found
    ensures Distinct(keysToDelete)
    ensures forall k :: k in keysToDelete <==> k in found || UnsubscribedBefore(w, pending, userFeedKeys, |pending|, k)
  {
    keysToDelete := found;
    var i := 0;
    while i < |pending|
      invariant 0 <= i <= |pending| && Distinct(keysToDelete)
      invariant forall k :: k in keysToDelete <==> k in found || UnsubscribedBefore(w, pending, userFeedKeys, i, k)
    {
      if w.Unsubscribed(userFeedKeys[i]) {
        assert pending[i] in pending;
        DistinctConcat(keysToDelete, [pending[i]]);
        keysToDelete := keysToDelete + [pending[i]];
      }
      i := i + 1;
    }
  }

  /** The keys of one page to delete: exactly the removable ones, each once. */
  method OrphanedKeys(w: World, keys: seq<Key>, olderThanDays: int, cutoff: int) returns (keysToDelete: seq<Key>)
    requires Distinct(keys)
    ensures Distinct(keysToDelete)
    ensures forall k :: k in keysToDelete <==> k in keys && w.Removable(k, olderThanDays, cutoff)
  {
    var candidates := ParseKeys(keys);
    var found, pending, userFeedKeys := SplitByArticle(w, candidates, olderThanDays, cutoff);
    keysToDelete := AddUnsubscribed(w, pending, userFeedKeys, found);
    forall k ensures k in keysToDelete <==> k in keys && w.Removable(k, olderThanDays, cutoff) {
      if k in pending {
        var i :| 0 <= i < |pending| && pending[i] == k;
        assert UnsubscribedBefore(w, pending, userFeedKeys, |pending|, k) <==> w.Unsubscribed(userFeedKeys[i]);
      }
    }
  }

  /** What a run that handled the first `upTo` keys of the order has removed. */
  ghost function RemovedUpTo(w: World, order: seq<Key>, upTo: nat, olderThanDays: int, cutoff: int): set<Key>
    requires upTo <= |order|
  {
    set k | k in order[..upTo] && w.Removable(k, olderThanDays, cutoff)
  }

  /** Deletions of earlier pages leave the keys behind the cursor alone, so the next page is the
      next stretch of the key order. */
  lemma {:induction false} LivePage(w: World, order: seq<Key>, all: set<Key>, live: set<Key>, pos: nat,
                                    olderThanDays: int, cutoff: int)
    requires Distinct(order) && all == (set k | k in order) && pos <= |order|
    requires live == all - RemovedUpTo(w, order, pos, olderThanDays, cutoff)
    ensures var keys := PageFrom(order, live, pos, BATCH_SIZE);
      && |keys| == Min(BATCH_SIZE, |order| - pos) && keys == order[pos..pos + |keys|]
      && Distinct(keys) && forall k :: k in keys ==> k in live
  {
    forall i | pos <= i < |order| ensures order[i] in live {
      assert order[i] in all && order[i] !in order[..pos];
    }
    UntouchedPage(order, live, pos, BATCH_SIZE);
  }

  lemma {:induction false} PageRemoved(w: World, order: seq<Key>, a: nat, keys: seq<Key>, deleted: seq<Key>,
                                       olderThanDays: int, cutoff: int)
    requires a + |keys| <= |order| && keys == order[a..a + |keys|]
    requires forall k :: k in deleted <==> k in keys && w.Removable(k, olderThanDays, cutoff)
    ensures RemovedUpTo(w, order, a + |keys|, olderThanDays, cutoff)
         == RemovedUpTo(w, order, a, olderThanDays, cutoff) + set k | k in deleted
  {
    assert order[..a + |keys|] == order[..a] + keys;
    SameSet(RemovedUpTo(w, order, a + |keys|, olderThanDays, cutoff),
            RemovedUpTo(w, order, a, olderThanDays, cutoff) + set k | k in deleted);
  }

  lemma {:induction false} LiveAfterPage(w: World, order: seq<Key>, all: set<Key>, pos: nat, keys: seq<Key>,
                                         deleted: seq<Key>, olderThanDays: int, cutoff: int)
    requires pos + |keys| <= |order| && keys == order[pos..pos + |keys|]
    requires forall k :: k in deleted <==> k in keys && w.Removable(k, olderThanDays, cutoff)
    ensures all - RemovedUpTo(w, order, pos, olderThanDays, cutoff) - (set k | k in deleted)
         == all - RemovedUpTo(w, order, pos + |keys|, olderThanDays, cutoff)
  {
    PageRemoved(w, order, pos, keys, deleted, olderThanDays, cutoff);
    MinusTwice(all, RemovedUpTo(w, order, pos, olderThanDays, cutoff), set k | k in deleted);
  }

  /** Where a run ends, and whether it reports an error. */
  datatype End = End(reached: nat, err: bool)

  /** A failing batch ends a run with an error; a short page, the end of the keys, or a full page
      whose cursor fails end it without. */
  function StopsAt(w: World, total: nat, pos: nat): End
    requires pos <= total
    decreases total - pos
  {
    if pos == total then End(pos, false)
    else if pos in w.batchFaults then End(pos, true)
    else if total - pos < BATCH_SIZE then End(total, false)
    else if pos in w.cursorFaults then End(pos + BATCH_SIZE, false)
    else StopsAt(w, total, pos + BATCH_SIZE)
  }

  class UserArticleTable {
    const order: seq<Key>     // every status key, in the order key queries return them
    var live: set<Key>

    ghost predicate Full()
      reads this
    {
      Distinct(order) && live == set k | k in order
    }

    constructor (order: seq<Key>)
      requires Distinct(order)
      ensures this.order == order && Full()
    {
      this.order := order;
      live := set k | k in order;
    }

    /** DeleteMulti: every given key goes. */
    method DeleteMulti(keys: seq<Key>)
      requires Distinct(keys) && forall k :: k in keys ==> k in live
      modifies this
      ensures live == old(live) - (set k | k in keys)
      ensures |live| == |old(live)| - |keys|
    {
      DistinctCardinality(keys);
      live := live - set k | k in keys;
      assert (set k | k in keys) <= old(live);
    }

    /** The key query behind the page cursor, at most 500 keys. */
    method ReadPage(w: World, ghost all: set<Key>, pos: nat, ghost olderThanDays: int, ghost cutoff: int)
      returns (keys: seq<Key>)
      requires Distinct(order) && all == (set k | k in order) && pos <= |order|
      requires live == all - RemovedUpTo(w, order, pos, olderThanDays, cutoff)
      ensures |keys| == Min(BATCH_SIZE, |order| - pos) && keys == order[pos..pos + |keys|]
      ensures Distinct(keys) && forall k :: k in keys ==> k in live
    {
      LivePage(w, order, all, live, pos, olderThanDays, cutoff);
      keys := PageFrom(order, live, pos, BATCH_SIZE);
    }

    /** One page: read its keys, decide, delete. */
    method CleanPage(w: World, ghost all: set<Key>, pos: nat, olderThanDays: int, cutoff: int)
      returns (n: nat, deleted: nat, err: bool)
      requires Distinct(order) && all == (set k | k in order) && pos <= |order|
      requires live == all - RemovedUpTo(w, order, pos, olderThanDays, cutoff)
      modifies this
      ensures n == Min(BATCH_SIZE, |order| - pos)
      ensures err <==> n > 0 && pos in w.batchFaults
      ensures err ==> live == old(live) && deleted == 0
      ensures !err ==> live == all - RemovedUpTo(w, order, pos + n, olderThanDays, cutoff)
      ensures deleted == |old(live)| - |live|
    {
      var keys := ReadPage(w, all, pos, olderThanDays, cutoff);
      n, deleted, err := |keys|, 0, false;
      if |keys| == 0 {
        return;
      }
      if pos in w.batchFaults {
        err := true;
        return;
      }
      var keysToDelete := OrphanedKeys(w, keys, olderThanDays, cutoff);
      DeleteMulti(keysToDelete);
      LiveAfterPage(w, order, all, pos, keys, keysToDelete, olderThanDays, cutoff);
      deleted := |keysToDelete|;
    }

    /** The paged run. `deletedCount` is always the number of statuses that disappeared, and what
        disappeared are the removable keys up to where the run ends. */
    method CleanupOrphanedUserArticles(w: World, olderThanDays: int, cutoff: int)
      returns (deletedCount: int, err: bool, ghost reached: nat)
      requires Full()
      modifies this
      ensures reached <= |order| && End(reached, err) == StopsAt(w, |order|, 0)
      ensures live == old(live) - RemovedUpTo(w, order, reached, olderThanDays, cutoff)
      ensures deletedCount == |old(live)| - |live|
    {
      deletedCount, err, reached := 0, false, 0;
      var pos := 0;
      while true
        invariant pos == reached <= |order| && !err && StopsAt(w, |order|, 0) == StopsAt(w, |order|, pos)
        invariant live == old(live) - RemovedUpTo(w, order, pos, olderThanDays, cutoff)
        invariant deletedCount == |old(live)| - |live|
        decreases |order| - pos
      {
        var n, deleted;
        n, deleted, err := CleanPage(w, old(live), pos, olderThanDays, cutoff);
        if n == 0 {
          break;
        }
        deletedCount := deletedCount + deleted;
        if err {
          break;
        }
        reached := pos + n;
        var morePages := n == BATCH_SIZE;
        if !morePages || pos in w.cursorFaults {
          break;
        }
        pos := pos + n;
      }
    }
  }

  /** No page before position `to` keeps a run from going on. */
  ghost predicate PassesTo(w: World, pos: nat, to: nat) {
    forall i: nat :: pos + i * BATCH_SIZE < to ==>
      pos + i * BATCH_SIZE !in w.batchFaults && pos + i * BATCH_SIZE !in w.cursorFaults
  }

  ghost predicate OnGrid(pos: nat, p: nat) {
    exists i: nat :: p == pos + i * BATCH_SIZE
  }

  lemma {:induction false} GridStep(w: World, pos: nat, p: nat)
    requires pos < p
    ensures OnGrid(pos, p) <==> p >= pos + BATCH_SIZE && OnGrid(pos + BATCH_SIZE, p)
    ensures PassesTo(w, pos, p) <==>
      pos !in w.batchFaults && pos !in w.cursorFaults && PassesTo(w, pos + BATCH_SIZE, p)
  {
    var next := pos + BATCH_SIZE;
    if i: nat :| p == pos + i * BATCH_SIZE {
      assert i > 0 && p == next + (i - 1) * BATCH_SIZE;
    }
    if i: nat :| p == next + i * BATCH_SIZE {
      assert p == pos + (i + 1) * BATCH_SIZE;
    }
    if PassesTo(w, pos, p) {
      assert pos + 0 * BATCH_SIZE == pos;
      forall i: nat | next + i * BATCH_SIZE < p
        ensures next + i * BATCH_SIZE !in w.batchFaults && next + i * BATCH_SIZE !in w.cursorFaults
      {
        assert pos + (i + 1) * BATCH_SIZE == next + i * BATCH_SIZE;
      }
    }
    if pos !in w.batchFaults && pos !in w.cursorFaults && PassesTo(w, next, p) {
      forall i: nat | pos + i * BATCH_SIZE < p
        ensures pos + i * BATCH_SIZE !in w.batchFaults && pos + i * BATCH_SIZE !in w.cursorFaults
      {
        if i > 0 {
          var j: nat := i - 1;
          assert next + j * BATCH_SIZE == pos + i * BATCH_SIZE;
        }
      }
    }
  }

  /** The page at p is the first one that fails: by its batch, or by its cursor although keys follow. */
  ghost predicate FailsFirstAt(w: World, total: nat, pos: nat, p: nat, err: bool) {
    && pos <= p && OnGrid(pos, p) && PassesTo(w, pos, p)
    && if err then p < total && p in w.batchFaults
       else p + BATCH_SIZE < total && p !in w.batchFaults && p in w.cursorFaults
  }

  lemma {:induction false} FailsHere(w: World, total: nat, pos: nat, err: bool)
    ensures FailsFirstAt(w, total, pos, pos, err) <==>
      if err then pos < total && pos in w.batchFaults
      else pos + BATCH_SIZE < total && pos !in w.batchFaults && pos in w.cursorFaults
  {
    assert pos == pos + 0 * BATCH_SIZE;
  }

  ghost predicate FailsFirst(w: World, total: nat, pos: nat, err: bool) {
    exists p: nat :: FailsFirstAt(w, total, pos, p, err)
  }

  /** Unless the page at `pos` fails, the first one to fail is among the pages behind it. */
  lemma {:induction false} FailsLater(w: World, total: nat, pos: nat, err: bool)
    requires pos !in w.batchFaults && pos !in w.cursorFaults
    ensures FailsFirst(w, total, pos, err) <==> FailsFirst(w, total, pos + BATCH_SIZE, err)
  {
    FailsHere(w, total, pos, err);
    var next := pos + BATCH_SIZE;
    if p: nat :| FailsFirstAt(w, total, pos, p, err) {
      GridStep(w, pos, p);
      assert FailsFirstAt(w, total, next, p, err);
    }
    if p: nat :| FailsFirstAt(w, total, next, p, err) {
      GridStep(w, pos, p);
      assert FailsFirstAt(w, total, pos, p, err);
    }
  }

  /** A page that fails or is the last one is the only one that can fail first. */
  lemma {:induction false} FailsNowhereElse(w: World, total: nat, pos: nat, err: bool)
    requires pos in w.batchFaults || pos in w.cursorFaults || pos + BATCH_SIZE > total
    ensures FailsFirst(w, total, pos, err) <==> FailsFirstAt(w, total, pos, pos, err)
  {
    if p: nat :| FailsFirstAt(w, total, pos, p, err) {
      if pos < p {
        GridStep(w, pos, p);
        assert false;
      }
    }
  }

  /** Exactly when a run ends early, with an error or silently. */
  lemma {:induction false} StopsEarlyExactly(w: World, total: nat, pos: nat)
    requires pos <= total
    ensures pos <= StopsAt(w, total, pos).reached <= total
    ensures StopsAt(w, total, pos).err <==> FailsFirst(w, total, pos, true)
    ensures !StopsAt(w, total, pos).err && StopsAt(w, total, pos).reached < total <==> FailsFirst(w, total, pos, false)
    decreases total - pos
  {
    FailsHere(w, total, pos, true);
    FailsHere(w, total, pos, false);
    if pos in w.batchFaults || pos in w.cursorFaults || pos + BATCH_SIZE > total {
      FailsNowhereElse(w, total, pos, true);
      FailsNowhereElse(w, total, pos, false);
    } else {
      FailsLater(w, total, pos, true);
      FailsLater(w, total, pos, false);
      StopsEarlyExactly(w, total, pos + BATCH_SIZE);
    }
  }

  /** A run can report success with work left: 501 keys, and no cursor after the first page. */
  lemma {:induction false} SilentStop(w: World)
    requires w.batchFaults == {} && w.cursorFaults == {0}
    ensures StopsAt(w, 501, 0) == End(500, false)
  {
  }

  /** When "not found" is the only error a single read returns, a completed run removes exactly the
      orphans and keeps everything else. */
  lemma {:induction false} CompletedRunIsFilter(w: World, order: seq<Key>, olderThanDays: int, cutoff: int)
    requires w.OnlyNotFoundErrors()
    ensures forall k :: k in order ==>
      (k in RemovedUpTo(w, order, |order|, olderThanDays, cutoff) <==> w.Orphaned(k, olderThanDays, cutoff))
    ensures forall k :: k in order ==>
      (k in RemovedUpTo(w, order, |order|, olderThanDays, cutoff) <==>
         k.Pair? &&
         (k.articleID !in w.articles ||
          (&& (k.userID, w.articles[k.articleID].feedID) !in w.subscriptions
           && (olderThanDays <= 0 || w.articles[k.articleID].createdAt <= cutoff))))
  {
    assert order[..|order|] == order;
  }

  /** Other read errors cut both ways: a status is treated wrongly exactly when its article's read
      failed although it is no orphan, or it is one whose subscription read failed. */
  lemma {:induction false} ReadErrorsMisjudge(w: World, k: Key, olderThanDays: int, cutoff: int)
    requires k.Pair?
    ensures (w.Removable(k, olderThanDays, cutoff) <==> w.Orphaned(k, olderThanDays, cutoff))
       <==> if k.articleID in w.articleFaults then w.Orphaned(k, olderThanDays, cutoff)
            else !(w.Orphaned(k, olderThanDays, cutoff) && k.articleID in w.articles
                   && (k.userID, w.articles[k.articleID].feedID) in w.feedFaults)
  {
  }

  /** Both ways: the status of a subscribed article goes when the article cannot be read, and an orphan
      stays when the subscription cannot. */
  lemma {:induction false} ReadErrorsCutBothWays() returns (w: World, unread: World)
    ensures w.Removable(Pair(1, 5), 0, 0) && !w.Orphaned(Pair(1, 5), 0, 0)
    ensures !unread.Removable(Pair(1, 5), 0, 0) && unread.Orphaned(Pair(1, 5), 0, 0)
  {
    var articles := map[5 := Article(7, "", "", "", "", "", 0, 0)];
    w := World(articles, {(1, 7)}, {5}, {}, {}, {});
    unread := World(articles, {}, {}, {(1, 7)}, {}, {});
  }

  /** The SQLite cleanup: a join with the articles, so statuses of missing articles stay, and a
      strict comparison with the cutoff. */
  predicate SqliteRemoves(w: World, k: Key, olderThanDays: nat, cutoff: int) {
    k.Pair? && k.articleID in w.articles
    && (k.userID, w.articles[k.articleID].feedID) !in w.subscriptions
    && (olderThanDays == 0 || w.articles[k.articleID].createdAt < cutoff)
  }

  /** Where the two back ends differ: a missing article, or an orphan created exactly at the cutoff. */
  lemma {:induction false} BackendsCleanAlike(w: World, k: Key, olderThanDays: nat, cutoff: int)
    requires k.Pair?
    ensures (w.Orphaned(k, olderThanDays, cutoff) <==> SqliteRemoves(w, k, olderThanDays, cutoff))
       <==> k.articleID in w.articles
            && !(olderThanDays > 0 && w.articles[k.articleID].createdAt == cutoff
                 && (k.userID, w.articles[k.articleID].feedID) !in w.subscriptions)
  {
  }

  /** A status whose article is gone, and an orphan created at the cutoff: only Datastore removes them. */
  lemma {:induction false} OnlyDatastoreRemoves() returns (gone: World, atCutoff: World)
    ensures gone.Orphaned(Pair(1, 5), 30, 100) && !SqliteRemoves(gone, Pair(1, 5), 30, 100)
    ensures 5 in atCutoff.articles
    ensures atCutoff.Orphaned(Pair(1, 5), 30, 100) && !SqliteRemoves(atCutoff, Pair(1, 5), 30, 100)
  {
    gone := World(map[], {}, {}, {}, {}, {});
    atCutoff := World(map[5 := Article(7, "", "", "", "", "", 0, 100)], {}, {}, {}, {}, {});
  }
}
