/** Unread counts: the direct count of the SQLite back end, and the Datastore back end's
    "seed every recent article as unread, then subtract the read ones in chunks". */
module UnreadCounts {
  import opened Results
  import opened Collections
  import opened ArticleStore

  /** Reads that fail: article queries by feed, whole status chunks by start index, single statuses
      by article id. */
  datatype Faults = Faults(feedQueries: set<int>, chunks: set<int>, statuses: set<int>)

  const NO_FAULTS := Faults({}, {}, {})

  /** Articles of a feed published at or after the cutoff (90 days before now). */
  function InWindow(st: Store, feedID: int, cutoff: int): set<int> {
    set id | id in st.FeedArticles(feedID) && st.articles[id].publishedAt >= cutoff
  }

  /** What the direct count counts: in the window and not marked read. */
  function UnreadIn(st: Store, userID: int, feedID: int, cutoff: int): set<int> {
    set id | id in InWindow(st, feedID, cutoff) && !st.IsRead(userID, id)
  }

  /** The part of a set of article ids that belongs to one feed. */
  function OfFeed(st: Store, ids: set<int>, feedID: int): set<int> {
    set id | id in ids && id in st.FeedArticles(feedID)
  }

  /** SQLite: one COUNT per feed. */
  method DirectCounts(st: Store, userID: int, userFeeds: seq<int>, cutoff: int) returns (counts: map<int, int>)
    ensures forall f :: f in counts <==> f in userFeeds
    ensures forall f :: f in counts ==> counts[f] == |UnreadIn(st, userID, f, cutoff)|
  {
    counts := map[];
    var i := 0;
    while i < |userFeeds|
      invariant 0 <= i <= |userFeeds|
      invariant forall f :: f in counts <==> f in userFeeds[..i]
      invariant forall f :: f in counts ==> counts[f] == |UnreadIn(st, userID, f, cutoff)|
    {
      counts := counts[userFeeds[i] := |UnreadIn(st, userID, userFeeds[i], cutoff)|];
      i := i + 1;
    }
  }

  /** The parallel arrays of phase 1: keys[i] is a recent article of feed feedIDs[i], and every
      recent article of the feeds in `fed` is there once. */
  ghost predicate Aligned(st: Store, keys: seq<int>, feedIDs: seq<int>, fed: set<int>, cutoff: int) {
    && |keys| == |feedIDs| && Distinct(keys)
    && (forall i :: 0 <= i < |keys| ==> feedIDs[i] in fed && keys[i] in InWindow(st, feedIDs[i], cutoff))
    && (forall f, id :: f in fed && id in InWindow(st, f, cutoff) ==> id in keys)
  }

  /** Appending one feed's keys, in whatever order its query lists them. */
  method AppendKeys(st: Store, feedID: int, keys0: seq<int>, feedIDs0: seq<int>, ghost fed: set<int>, cutoff: int)
    returns (keys: seq<int>, feedIDs: seq<int>)
    requires Aligned(st, keys0, feedIDs0, fed, cutoff) && feedID !in fed
    ensures Aligned(st, keys, feedIDs, fed + {feedID}, cutoff)
  {
    keys, feedIDs := keys0, feedIDs0;
    var pending := InWindow(st, feedID, cutoff);
    while pending != {}
      invariant pending <= InWindow(st, feedID, cutoff)
      invariant |keys| == |feedIDs| && Distinct(keys)
      invariant forall i :: 0 <= i < |keys| ==>
        feedIDs[i] in fed + {feedID} && keys[i] in InWindow(st, feedIDs[i], cutoff)
      invariant forall f, id :: f in fed && id in InWindow(st, f, cutoff) ==> id in keys
      invariant forall id :: id in InWindow(st, feedID, cutoff) ==> (id in keys <==> id !in pending)
    {
      var k := AnyOf(pending);
      pending := pending - {k};
      DistinctConcat(keys, [k]);
      keys, feedIDs := keys + [k], feedIDs + [feedID];
    }
  }

  ghost function Sum(F: set<int>, c: map<int, int>): int
    requires F <= c.Keys
    decreases |F|
  {
    if F == {} then 0 else
      var f := PickAny(F);
      c[f] + Sum(F - {f}, c)
  }

  lemma {:induction false} SumRemove(F: set<int>, c: map<int, int>, x: int)
    requires F <= c.Keys && x in F
    ensures Sum(F, c) == c[x] + Sum(F - {x}, c)
    decreases |F|
  {
    var f := PickAny(F);
    if f != x {
      SumRemove(F - {f}, c, x);
      SumRemove(F - {x}, c, f);
      assert F - {f} - {x} == F - {x} - {f};
    }
  }

  ghost function FeedSizes(st: Store, feeds: set<int>): (m: map<int, int>)
    ensures m.Keys == feeds
  {
    map f | f in feeds :: |st.FeedArticles(f)|
  }

  /** The state of phase 1 after the feeds in `fed` have replied. */
  ghost predicate SeededFor(st: Store, counts: map<int, int>, keys: seq<int>, feedIDs: seq<int>,
                            totalArticles: int, sizes: map<int, int>, cutoff: int) {
    && counts.Keys <= sizes.Keys
    && Aligned(st, keys, feedIDs, counts.Keys, cutoff)
    && (forall f :: f in counts ==> counts[f] == |InWindow(st, f, cutoff)|)
    && totalArticles == Sum(counts.Keys, sizes)
  }

  /** One reply of phase 1. */
  method SeedFeed(st: Store, f: int, counts0: map<int, int>, keys0: seq<int>, feedIDs0: seq<int>,
                  total0: int, ghost sizes: map<int, int>, cutoff: int)
    returns (counts: map<int, int>, keys: seq<int>, feedIDs: seq<int>, totalArticles: int)
    requires SeededFor(st, counts0, keys0, feedIDs0, total0, sizes, cutoff)
    requires f !in counts0 && f in sizes && sizes[f] == |st.FeedArticles(f)|
    ensures counts.Keys == counts0.Keys + {f}
    ensures SeededFor(st, counts, keys, feedIDs, totalArticles, sizes, cutoff)
  {
    keys, feedIDs := AppendKeys(st, f, keys0, feedIDs0, counts0.Keys, cutoff);
    totalArticles := total0 + |st.FeedArticles(f)|;
    counts := counts0[f := |InWindow(st, f, cutoff)|];
    assert counts.Keys == counts0.Keys + {f};
    SumRemove(counts.Keys, sizes, f);
    assert counts.Keys - {f} == counts0.Keys;
  }

  /** Phase 1: replies are received in any order; each seeds its feed's count and extends the
      arrays. The first failed query ends the request. */
  method SeedCounts(st: Store, userFeeds: seq<int>, cutoff: int, failed: set<int>)
    returns (ok: bool, counts: map<int, int>, keys: seq<int>, feedIDs: seq<int>, totalArticles: int)
    requires Distinct(userFeeds)
    ensures ok <==> forall f :: f in userFeeds ==> f !in failed
    ensures ok ==> counts.Keys == (set f | f in userFeeds) && Aligned(st, keys, feedIDs, counts.Keys, cutoff)
    ensures ok ==> forall f :: f in counts ==> counts[f] == |InWindow(st, f, cutoff)|
    ensures ok ==> totalArticles == Sum(counts.Keys, FeedSizes(st, counts.Keys))
  {
    ok, counts, keys, feedIDs, totalArticles := true, map[], [], [], 0;
    var asked := set f | f in userFeeds;
    ghost var sizes := FeedSizes(st, asked);
    var pending := asked;
    while pending != {}
      invariant pending <= asked && counts.Keys == asked - pending
      invariant forall f :: f in counts ==> f !in failed
      invariant SeededFor(st, counts, keys, feedIDs, totalArticles, sizes, cutoff)
    {
      var f := AnyOf(pending);
      if f in failed {
        ok := false;
        return;
      }
      pending := pending - {f};
      counts, keys, feedIDs, totalArticles := SeedFeed(st, f, counts, keys, feedIDs, totalArticles, sizes, cutoff);
    }
    assert counts.Keys == asked;
  }

  /** One status read of phase 2: subtract if it succeeded and says read. */
  predicate ReadSeen(st: Store, userID: int, id: int, failed: set<int>) {
    id !in failed && st.IsRead(userID, id)
  }

  lemma {:induction false} SubtractOne(st: Store, subtracted: set<int>, id: int, f: int)
    requires id !in subtracted
    ensures |OfFeed(st, subtracted + {id}, f)|
         == |OfFeed(st, subtracted, f)| + (if id in st.FeedArticles(f) then 1 else 0)
  {
    if id in st.FeedArticles(f) {
      assert OfFeed(st, subtracted + {id}, f) == OfFeed(st, subtracted, f) + {id};
    } else {
      assert OfFeed(st, subtracted + {id}, f) == OfFeed(st, subtracted, f);
    }
  }

  /** Start of the chunk that position j is read in. */
  function ChunkStart(j: nat, chunkSize: nat): nat
    requires chunkSize > 0
  {
    if j < chunkSize then 0 else chunkSize + ChunkStart(j - chunkSize, chunkSize)
  }

  lemma {:induction false} SameChunk(i: nat, j: nat, chunkSize: nat)
    requires chunkSize > 0 && ChunkStart(i, chunkSize) == i && i <= j < i + chunkSize
    ensures ChunkStart(j, chunkSize) == i
  {
    if i >= chunkSize {
      SameChunk(i - chunkSize, j - chunkSize, chunkSize);
    }
  }

  /** The status of keys[j] is not read: its chunk fails, or its own read does. */
  predicate Lost(keys: seq<int>, j: nat, chunkSize: nat, faults: Faults)
    requires chunkSize > 0 && j < |keys|
  {
    ChunkStart(j, chunkSize) in faults.chunks || keys[j] in faults.statuses
  }

  /** `subtracted` are the articles among the first n keys whose status is read and says read. */
  ghost predicate SubtractedUpTo(st: Store, userID: int, keys: seq<int>, chunkSize: nat, faults: Faults,
                                 n: nat, subtracted: set<int>)
    requires chunkSize > 0 && n <= |keys|
  {
    && (forall id :: id in subtracted ==> id in keys[..n])
    && (forall j :: 0 <= j < n ==>
          (keys[j] in subtracted <==> st.IsRead(userID, keys[j]) && !Lost(keys, j, chunkSize, faults)))
  }

  ghost predicate CountsLess(st: Store, counts0: map<int, int>, counts: map<int, int>, subtracted: set<int>) {
    counts.Keys == counts0.Keys && forall f :: f in counts ==> counts[f] == counts0[f] - |OfFeed(st, subtracted, f)|
  }

  /** unreadCounts[articleFeedIDs[j]]-- */
  method TakeOff(st: Store, ghost counts0: map<int, int>, counts: map<int, int>, ghost subtracted: set<int>,
                 keys: seq<int>, feedIDs: seq<int>, j: nat, ghost cutoff: int)
    returns (next: map<int, int>, ghost subtracted': set<int>)
    requires j < |keys| && Aligned(st, keys, feedIDs, counts0.Keys, cutoff)
    requires CountsLess(st, counts0, counts, subtracted) && forall id :: id in subtracted ==> id in keys[..j]
    ensures CountsLess(st, counts0, next, subtracted') && subtracted' == subtracted + {keys[j]}
  {
    next := counts[feedIDs[j] := counts[feedIDs[j]] - 1];
    subtracted' := subtracted + {keys[j]};
    forall f | f in next ensures next[f] == counts0[f] - |OfFeed(st, subtracted', f)| {
      SubtractOne(st, subtracted, keys[j], f);
    }
  }

  lemma {:induction false} OneMoreSubtracted(st: Store, userID: int, keys: seq<int>, chunkSize: nat, faults: Faults,
                                             j: nat, subtracted: set<int>)
    requires chunkSize > 0 && j < |keys| && Distinct(keys)
    requires SubtractedUpTo(st, userID, keys, chunkSize, faults, j, subtracted)
    ensures keys[j] !in subtracted
    ensures SubtractedUpTo(st, userID, keys, chunkSize, faults, j + 1,
      if st.IsRead(userID, keys[j]) && !Lost(keys, j, chunkSize, faults) then subtracted + {keys[j]} else subtracted)
  {
    assert keys[..j + 1] == keys[..j] + [keys[j]];
    assert forall k :: 0 <= k < j ==> keys[k] != keys[j];
  }

  /** The replies of one chunk, positions start..end. */
  method SubtractChunk(st: Store, userID: int, ghost counts0: map<int, int>, counts: map<int, int>,
                       ghost subtracted: set<int>, keys: seq<int>, feedIDs: seq<int>, start: nat, end: nat,
                       ghost chunkSize: nat, faults: Faults, ghost cutoff: int)
    returns (next: map<int, int>, ghost subtracted': set<int>)
    requires chunkSize > 0 && start <= end <= |keys| && Aligned(st, keys, feedIDs, counts0.Keys, cutoff)
    requires CountsLess(st, counts0, counts, subtracted)
    requires SubtractedUpTo(st, userID, keys, chunkSize, faults, start, subtracted)
    requires forall j :: start <= j < end ==> ChunkStart(j, chunkSize) !in faults.chunks
    ensures CountsLess(st, counts0, next, subtracted')
    ensures SubtractedUpTo(st, userID, keys, chunkSize, faults, end, subtracted')
  {
    next, subtracted' := counts, subtracted;
    var j := start;
    while j < end
      invariant start <= j <= end && CountsLess(st, counts0, next, subtracted')
      invariant SubtractedUpTo(st, userID, keys, chunkSize, faults, j, subtracted')
    {
      OneMoreSubtracted(st, userID, keys, chunkSize, faults, j, subtracted');
      if ReadSeen(st, userID, keys[j], faults.statuses) {
        next, subtracted' := TakeOff(st, counts0, next, subtracted', keys, feedIDs, j, cutoff);
      }
      j := j + 1;
    }
  }

  lemma {:induction false} ChunkLost(st: Store, userID: int, keys: seq<int>, chunkSize: nat, faults: Faults,
                                     start: nat, end: nat, subtracted: set<int>)
    requires chunkSize > 0 && start <= end <= |keys| && Distinct(keys)
    requires SubtractedUpTo(st, userID, keys, chunkSize, faults, start, subtracted)
    requires forall j :: start <= j < end ==> ChunkStart(j, chunkSize) in faults.chunks
    ensures SubtractedUpTo(st, userID, keys, chunkSize, faults, end, subtracted)
  {
    assert keys[..end] == keys[..start] + keys[start..end];
    assert forall j :: start <= j < end ==> keys[j] !in keys[..start];
  }

  /** Phase 2: statuses are read in chunks (of 1000, but any size does); a failed chunk or status
      leaves its articles unread. `subtracted` are the articles taken off the counts. */
  method SubtractRead(st: Store, userID: int, counts0: map<int, int>, keys: seq<int>, feedIDs: seq<int>,
                      chunkSize: nat, faults: Faults, ghost cutoff: int)
    returns (counts: map<int, int>, ghost subtracted: set<int>)
    requires chunkSize > 0 && Aligned(st, keys, feedIDs, counts0.Keys, cutoff)
    ensures CountsLess(st, counts0, counts, subtracted)
    ensures SubtractedUpTo(st, userID, keys, chunkSize, faults, |keys|, subtracted)
  {
    counts, subtracted := counts0, {};
    assert forall f :: OfFeed(st, {}, f) == {};
    var i := 0;
    while i < |keys|
      invariant 0 <= i && ChunkStart(i, chunkSize) == i && CountsLess(st, counts0, counts, subtracted)
      invariant SubtractedUpTo(st, userID, keys, chunkSize, faults, Min(i, |keys|), subtracted)
    {
      var end := Min(i + chunkSize, |keys|);
      forall j | i <= j < end ensures ChunkStart(j, chunkSize) == i {
        SameChunk(i, j, chunkSize);
      }
      if i !in faults.chunks {
        counts, subtracted := SubtractChunk(st, userID, counts0, counts, subtracted, keys, feedIDs,
                                            i, end, chunkSize, faults, cutoff);
      } else {
        ChunkLost(st, userID, keys, chunkSize, faults, i, end, subtracted);
      }
      i := i + chunkSize;
    }
  }

  /** `missed` are the read articles among the keys whose status is not read. */
  ghost predicate MissedExactly(st: Store, userID: int, keys: seq<int>, chunkSize: nat, faults: Faults,
                                missed: set<int>)
    requires chunkSize > 0
  {
    && (forall id :: id in missed ==> id in keys)
    && (forall j :: 0 <= j < |keys| ==>
          (keys[j] in missed <==> st.IsRead(userID, keys[j]) && Lost(keys, j, chunkSize, faults)))
  }

  /** The keys are the recent articles of the feeds, each once. */
  ghost predicate RecentKeys(st: Store, userFeeds: seq<int>, cutoff: int, keys: seq<int>) {
    Distinct(keys) && forall id :: id in keys <==> exists f :: f in userFeeds && id in InWindow(st, f, cutoff)
  }

  function ReadAmong(st: Store, userID: int, keys: seq<int>): set<int> {
    set id | id in keys && st.IsRead(userID, id)
  }

  lemma {:induction false} MissedAreLost(st: Store, userID: int, keys: seq<int>, chunkSize: nat, faults: Faults,
                                         subtracted: set<int>, missed: set<int>)
    requires chunkSize > 0 && SubtractedUpTo(st, userID, keys, chunkSize, faults, |keys|, subtracted)
    requires missed == ReadAmong(st, userID, keys) - subtracted
    ensures MissedExactly(st, userID, keys, chunkSize, faults, missed)
    ensures forall id :: id in subtracted ==> id in keys && st.IsRead(userID, id)
    ensures faults.chunks == {} && faults.statuses == {} ==> missed == {}
  {
    forall id | id in subtracted ensures id in keys && st.IsRead(userID, id) {
      var j :| 0 <= j < |keys| && keys[j] == id;
    }
    assert forall j :: 0 <= j < |keys| ==> keys[j] in keys;
    if faults.chunks == {} && faults.statuses == {} {
      forall id ensures id !in missed {
        if id in keys {
          var j :| 0 <= j < |keys| && keys[j] == id;
          assert !Lost(keys, j, chunkSize, faults);
        }
      }
    }
  }

  lemma {:induction false} KeysAreRecent(st: Store, userFeeds: seq<int>, cutoff: int, keys: seq<int>, feedIDs: seq<int>,
                                         fed: set<int>)
    requires Aligned(st, keys, feedIDs, fed, cutoff) && fed == set f | f in userFeeds
    ensures RecentKeys(st, userFeeds, cutoff, keys)
  {
    forall id | id in keys ensures exists f :: f in userFeeds && id in InWindow(st, f, cutoff) {
      var i :| 0 <= i < |keys| && keys[i] == id;
      assert feedIDs[i] in fed;
    }
  }

  lemma {:induction false} ThreeParts(all: set<int>, a: set<int>, b: set<int>, c: set<int>)
    requires forall x :: x in all <==> x in a || x in b || x in c
    requires forall x :: x in a ==> x !in b && x !in c
    requires forall x :: x in b ==> x !in c
    ensures |all| == |a| + |b| + |c|
  {
    forall x ensures x in all <==> x in a + (b + c) {
    }
    assert all == a + (b + c);
    forall x ensures x !in b * c && x !in a * (b + c) {
    }
    assert b * c == {};
    assert a * (b + c) == {};
    assert |b + c| == |b| + |c|;
  }

  lemma {:induction false} WindowSplits(st: Store, userID: int, f: int, cutoff: int, subtracted: set<int>,
                                        missed: set<int>)
    requires forall id :: id in subtracted + missed ==> st.IsRead(userID, id)
    requires forall id :: id in subtracted + missed && id in st.FeedArticles(f) ==> id in InWindow(st, f, cutoff)
    requires forall id :: id in InWindow(st, f, cutoff) && st.IsRead(userID, id) ==> id in subtracted + missed
    requires subtracted !! missed
    ensures |InWindow(st, f, cutoff)| - |OfFeed(st, subtracted, f)|
         == |UnreadIn(st, userID, f, cutoff)| + |OfFeed(st, missed, f)|
  {
    var unread, off, left := UnreadIn(st, userID, f, cutoff), OfFeed(st, subtracted, f), OfFeed(st, missed, f);
    forall id ensures id in InWindow(st, f, cutoff) <==> id in unread || id in off || id in left {
    }
    ThreeParts(InWindow(st, f, cutoff), unread, off, left);
  }

  /** Counting an article set twice over: everything in the window less the subtracted part. */
  lemma {:induction false} SeedMinusSubtracted(st: Store, userID: int, f: int, cutoff: int, keys: seq<int>,
                                               feedIDs: seq<int>,
                            fed: set<int>, subtracted: set<int>, missed: set<int>)
    requires f in fed && Aligned(st, keys, feedIDs, fed, cutoff)
    requires forall id :: id in subtracted ==> id in keys && st.IsRead(userID, id)
    requires missed == ReadAmong(st, userID, keys) - subtracted
    ensures |InWindow(st, f, cutoff)| - |OfFeed(st, subtracted, f)|
         == |UnreadIn(st, userID, f, cutoff)| + |OfFeed(st, missed, f)|
  {
    forall id | id in keys && id in st.FeedArticles(f) ensures id in InWindow(st, f, cutoff) {
      var i :| 0 <= i < |keys| && keys[i] == id;
    }
    WindowSplits(st, userID, f, cutoff, subtracted, missed);
  }

  /** The Datastore unread counts: each count exceeds the direct count by the number of the feed's
      recent read articles whose status was not read, so it never under-counts, never exceeds the
      articles in the window, and is the direct count when no status read fails. */
  method GetUserUnreadCounts(st: Store, userID: int, userFeeds: seq<int>, cutoff: int, chunkSize: nat, faults: Faults)
    returns (r: Result<map<int, int>>, ghost keys: seq<int>, ghost missed: set<int>)
    requires Distinct(userFeeds) && chunkSize > 0
    ensures r.Ok? <==> forall f :: f in userFeeds ==> f !in faults.feedQueries
    ensures r.Ok? ==> forall f :: f in r.value <==> f in userFeeds
    ensures r.Ok? ==> RecentKeys(st, userFeeds, cutoff, keys)
    ensures r.Ok? ==> MissedExactly(st, userID, keys, chunkSize, faults, missed)
    ensures r.Ok? ==> forall f :: f in r.value ==>
      r.value[f] == |UnreadIn(st, userID, f, cutoff)| + |OfFeed(st, missed, f)| <= |InWindow(st, f, cutoff)|
    ensures r.Ok? && faults.chunks == {} && faults.statuses == {} ==> missed == {}
  {
    missed := {};
    var ok, seeded, allKeys, feedIDs, _ := SeedCounts(st, userFeeds, cutoff, faults.feedQueries);
    keys := allKeys;
    if !ok {
      return Err("article query failed"), keys, {};
    }
    ghost var subtracted;
    var counts;
    counts, subtracted := SubtractRead(st, userID, seeded, allKeys, feedIDs, chunkSize, faults, cutoff);
    missed := ReadAmong(st, userID, keys) - subtracted;
    KeysAreRecent(st, userFeeds, cutoff, keys, feedIDs, seeded.Keys);
    MissedAreLost(st, userID, keys, chunkSize, faults, subtracted, missed);
    forall f | f in counts
      ensures counts[f] == |UnreadIn(st, userID, f, cutoff)| + |OfFeed(st, missed, f)| <= |InWindow(st, f, cutoff)|
    {
      SeedMinusSubtracted(st, userID, f, cutoff, keys, feedIDs, seeded.Keys, subtracted, missed);
    }
    r := Ok(counts);
  }

  // ---------------------------------------------------------------------------------------
  // Account statistics.
  // ---------------------------------------------------------------------------------------

  ghost function OfFeeds(st: Store, ids: set<int>, F: set<int>): set<int> {
    set id | id in ids && id in st.articles && st.articles[id].feedID in F
  }

  lemma {:induction false} SplitOffFeed(st: Store, ids: set<int>, F: set<int>, f: int)
    requires f in F
    ensures |OfFeeds(st, ids, F)| == |OfFeed(st, ids, f)| + |OfFeeds(st, ids, F - {f})|
  {
    var all, one, rest := OfFeeds(st, ids, F), OfFeed(st, ids, f), OfFeeds(st, ids, F - {f});
    forall id ensures id in all <==> id in one || id in rest {
    }
    ThreeParts(all, one, rest, {});
  }

  /** Summing sizes of per-feed article sets counts their union: an article has one feed. */
  lemma {:induction false} SumIsUnion(st: Store, F: set<int>, c: map<int, int>, ids: set<int>)
    requires F <= c.Keys
    requires forall f :: f in F ==> c[f] == |OfFeed(st, ids, f)|
    ensures Sum(F, c) == |OfFeeds(st, ids, F)|
    decreases |F|
  {
    if F != {} {
      var f := PickAny(F);
      SumIsUnion(st, F - {f}, c, ids);
      SplitOffFeed(st, ids, F, f);
    } else {
      assert OfFeeds(st, ids, F) == {};
    }
  }

  datatype Stats = Stats(totalArticles: int, totalUnread: int, activeFeeds: int)

  /** The feeds among `done` with something unread. */
  ghost function Active(counts: map<int, int>, done: set<int>): set<int> {
    set f | f in counts && f in done && counts[f] > 0
  }

  lemma {:induction false} ActiveStep(counts: map<int, int>, done: set<int>, f: int)
    requires f in counts && f !in done
    ensures |Active(counts, done + {f})| == |Active(counts, done)| + (if counts[f] > 0 then 1 else 0)
  {
    if counts[f] > 0 {
      SameSet(Active(counts, done + {f}), Active(counts, done) + {f});
    } else {
      SameSet(Active(counts, done + {f}), Active(counts, done));
    }
  }

  /** Summing up the count map, in whatever order the map is ranged over. */
  method Totals(counts: map<int, int>) returns (totalUnread: int, activeFeeds: int)
    ensures totalUnread == Sum(counts.Keys, counts)
    ensures activeFeeds == |set f | f in counts && counts[f] > 0|
  {
    totalUnread, activeFeeds := 0, 0;
    var pending := counts.Keys;
    ghost var done: set<int> := {};
    assert Active(counts, done) == {};
    while pending != {}
      invariant pending <= counts.Keys && done == counts.Keys - pending
      invariant totalUnread + Sum(pending, counts) == Sum(counts.Keys, counts)
      invariant activeFeeds == |Active(counts, done)|
    {
      var f := AnyOf(pending);
      SumRemove(pending, counts, f);
      ActiveStep(counts, done, f);
      totalUnread := totalUnread + counts[f];
      if counts[f] > 0 {
        activeFeeds := activeFeeds + 1;
      }
      pending := pending - {f};
      done := done + {f};
    }
    SameSet(Active(counts, done), set f | f in counts && counts[f] > 0);
  }

  ghost function UnreadArticles(st: Store, userID: int, cutoff: int): set<int> {
    set id | id in st.articles && st.articles[id].publishedAt >= cutoff && !st.IsRead(userID, id)
  }

  /** What the SQLite statistics query counts. */
  ghost function DirectStats(st: Store, userID: int, feeds: set<int>, cutoff: int): Stats {
    Stats(
      |OfFeeds(st, st.articles.Keys, feeds)|,
      |OfFeeds(st, UnreadArticles(st, userID, cutoff), feeds)|,
      |set f | f in feeds && UnreadIn(st, userID, f, cutoff) != {}|)
  }

  /** In the fields of the tables: all articles of the feeds, the recent unread ones among them, and the
      feeds that have one. */
  lemma {:induction false} DirectStatsInFields(st: Store, userID: int, feeds: set<int>, cutoff: int)
    ensures var direct := DirectStats(st, userID, feeds, cutoff);
      var unread := set id | id in st.articles && st.articles[id].feedID in feeds
                          && st.articles[id].publishedAt >= cutoff
                          && !((userID, id) in st.statuses && st.statuses[(userID, id)].isRead);
      var active := set f | f in feeds && exists id :: id in unread && st.articles[id].feedID == f;
      && direct.totalArticles == |set id | id in st.articles && st.articles[id].feedID in feeds|
      && direct.totalUnread == |unread| && direct.activeFeeds == |active|
  {
    var unread := set id | id in st.articles && st.articles[id].feedID in feeds
                        && st.articles[id].publishedAt >= cutoff
                        && !((userID, id) in st.statuses && st.statuses[(userID, id)].isRead);
    SameSet(OfFeeds(st, st.articles.Keys, feeds), set id | id in st.articles && st.articles[id].feedID in feeds);
    SameSet(OfFeeds(st, UnreadArticles(st, userID, cutoff), feeds), unread);
    var active := set f | f in feeds && exists id :: id in unread && st.articles[id].feedID == f;
    forall f ensures f in active <==> (f in feeds && UnreadIn(st, userID, f, cutoff) != {}) {
      if f in feeds && |UnreadIn(st, userID, f, cutoff)| > 0 {
        var id := PickAny(UnreadIn(st, userID, f, cutoff));
        assert id in unread;
      }
      if f in active {
        var id :| id in unread && st.articles[id].feedID == f;
        assert id in UnreadIn(st, userID, f, cutoff);
      }
    }
    SameSet(active, (set f | f in feeds && UnreadIn(st, userID, f, cutoff) != {}));
  }

  /** The feeds with an article that is unread or passes for it. */
  ghost function ActiveFeeds(st: Store, userID: int, feeds: set<int>, cutoff: int, missed: set<int>): set<int> {
    set f | f in feeds && UnreadIn(st, userID, f, cutoff) + OfFeed(st, missed, f) != {}
  }

  /** The statistics when the articles in `missed` pass for unread although they are not. */
  ghost function StatsMissing(st: Store, userID: int, feeds: set<int>, cutoff: int, missed: set<int>): Stats {
    Stats(
      |OfFeeds(st, st.articles.Keys, feeds)|,
      |OfFeeds(st, UnreadArticles(st, userID, cutoff) + missed, feeds)|,
      |ActiveFeeds(st, userID, feeds, cutoff, missed)|)
  }

  ghost predicate ShiftedBy(stats: Stats, direct: Stats, missed: nat) {
    && stats.totalArticles == direct.totalArticles
    && direct.totalUnread <= stats.totalUnread <= direct.totalUnread + missed
    && direct.activeFeeds <= stats.activeFeeds <= direct.activeFeeds + missed
  }

  lemma {:induction false} MissingNothing(st: Store, userID: int, feeds: set<int>, cutoff: int)
    ensures StatsMissing(st, userID, feeds, cutoff, {}) == DirectStats(st, userID, feeds, cutoff)
  {
    forall f ensures OfFeed(st, {}, f) == {} {
    }
    SameSet(ActiveFeeds(st, userID, feeds, cutoff, {}),
            set f | f in feeds && UnreadIn(st, userID, f, cutoff) != {});
    assert UnreadArticles(st, userID, cutoff) + {} == UnreadArticles(st, userID, cutoff);
  }

  lemma {:induction false} MoreUnread(st: Store, ids: set<int>, missed: set<int>, feeds: set<int>)
    ensures |OfFeeds(st, ids, feeds)| <= |OfFeeds(st, ids + missed, feeds)| <= |OfFeeds(st, ids, feeds)| + |missed|
  {
    var old', new' := OfFeeds(st, ids, feeds), OfFeeds(st, ids + missed, feeds);
    SubsetCardinality(old', new');
    SubsetCardinality(new' - old', missed);
    assert new' == old' + (new' - old');
  }

  /** The feed of an article; any number for an article that is not stored. */
  ghost function FeedOf(st: Store, id: int): int {
    if id in st.articles then st.articles[id].feedID else 0
  }

  lemma {:induction false} FewImages(st: Store, ids: set<int>)
    ensures |set id | id in ids :: FeedOf(st, id)| <= |ids|
  {
    if ids != {} {
      var x := PickAny(ids);
      FewImages(st, ids - {x});
      SameSet(set id | id in ids :: FeedOf(st, id), (set id | id in ids - {x} :: FeedOf(st, id)) + {FeedOf(st, x)});
    } else {
      SameSet(set id | id in ids :: FeedOf(st, id), {});
    }
  }

  lemma {:induction false} NewlyActive(st: Store, userID: int, feeds: set<int>, cutoff: int, missed: set<int>, f: int)
    requires f in ActiveFeeds(st, userID, feeds, cutoff, missed) && UnreadIn(st, userID, f, cutoff) == {}
    ensures f in set id | id in missed :: FeedOf(st, id)
  {
    var id := PickAny(OfFeed(st, missed, f));
    assert FeedOf(st, id) == f;
  }

  lemma {:induction false} MoreActive(st: Store, userID: int, feeds: set<int>, cutoff: int, missed: set<int>)
    ensures var direct := set f | f in feeds && UnreadIn(st, userID, f, cutoff) != {};
      |direct| <= |ActiveFeeds(st, userID, feeds, cutoff, missed)| <= |direct| + |missed|
  {
    var direct := set f | f in feeds && UnreadIn(st, userID, f, cutoff) != {};
    var all := ActiveFeeds(st, userID, feeds, cutoff, missed);
    var images := set id | id in missed :: FeedOf(st, id);
    forall f | f in all && f !in direct ensures f in images {
      NewlyActive(st, userID, feeds, cutoff, missed, f);
    }
    assert direct <= all && all - direct <= images;
    SubsetCardinality(all - direct, images);
    FewImages(st, missed);
    SameSet(all, direct + (all - direct));
    assert |direct + (all - direct)| == |direct| + |all - direct|;
  }

  lemma {:induction false} StatsShift(st: Store, userID: int, feeds: set<int>, cutoff: int, missed: set<int>)
    ensures ShiftedBy(StatsMissing(st, userID, feeds, cutoff, missed), DirectStats(st, userID, feeds, cutoff), |missed|)
    ensures missed == {} ==>
      StatsMissing(st, userID, feeds, cutoff, missed) == DirectStats(st, userID, feeds, cutoff)
  {
    MoreUnread(st, UnreadArticles(st, userID, cutoff), missed, feeds);
    MoreActive(st, userID, feeds, cutoff, missed);
    MissingNothing(st, userID, feeds, cutoff);
  }

  lemma {:induction false} TotalMatches(st: Store, feeds: set<int>, totalArticles: int)
    requires totalArticles == Sum(feeds, FeedSizes(st, feeds))
    ensures totalArticles == |OfFeeds(st, st.articles.Keys, feeds)|
  {
    forall f | f in feeds ensures FeedSizes(st, feeds)[f] == |OfFeed(st, st.articles.Keys, f)| {
      assert OfFeed(st, st.articles.Keys, f) == st.FeedArticles(f);
    }
    SumIsUnion(st, feeds, FeedSizes(st, feeds), st.articles.Keys);
  }

  lemma {:induction false} FeedParts(st: Store, userID: int, f: int, cutoff: int, missed: set<int>)
    requires forall id :: id in missed ==> st.IsRead(userID, id)
    ensures UnreadIn(st, userID, f, cutoff) == OfFeed(st, UnreadArticles(st, userID, cutoff), f)
    ensures |OfFeed(st, UnreadArticles(st, userID, cutoff) + missed, f)|
         == |UnreadIn(st, userID, f, cutoff)| + |OfFeed(st, missed, f)|
  {
    var unread := UnreadArticles(st, userID, cutoff);
    forall id ensures id in UnreadIn(st, userID, f, cutoff) <==> id in OfFeed(st, unread, f) {
    }
    ThreeParts(OfFeed(st, unread + missed, f), OfFeed(st, unread, f), OfFeed(st, missed, f), {});
  }

  lemma {:induction false} UnreadMatches(st: Store, userID: int, feeds: set<int>, cutoff: int, keys: seq<int>,
                                         feedIDs: seq<int>, seeded: map<int, int>, counts: map<int, int>,
                                         subtracted: set<int>)
    requires seeded.Keys == feeds && Aligned(st, keys, feedIDs, feeds, cutoff)
    requires forall f :: f in feeds ==> seeded[f] == |InWindow(st, f, cutoff)|
    requires CountsLess(st, seeded, counts, subtracted)
    requires forall id :: id in subtracted ==> id in keys && st.IsRead(userID, id)
    ensures var stats := StatsMissing(st, userID, feeds, cutoff, ReadAmong(st, userID, keys) - subtracted);
      Sum(feeds, counts) == stats.totalUnread && |set f | f in counts && counts[f] > 0| == stats.activeFeeds
  {
    var unread, missed := UnreadArticles(st, userID, cutoff), ReadAmong(st, userID, keys) - subtracted;
    forall f | f in feeds
      ensures counts[f] == |OfFeed(st, unread + missed, f)|
      ensures counts[f] > 0 <==> UnreadIn(st, userID, f, cutoff) + OfFeed(st, missed, f) != {}
    {
      SeedMinusSubtracted(st, userID, f, cutoff, keys, feedIDs, feeds, subtracted, missed);
      FeedParts(st, userID, f, cutoff, missed);
    }
    SumIsUnion(st, feeds, counts, unread + missed);
    SameSet(ActiveFeeds(st, userID, feeds, cutoff, missed), set f | f in counts && counts[f] > 0);
  }

  lemma {:induction false} StatsMatch(st: Store, userID: int, feeds: set<int>, cutoff: int, keys: seq<int>,
                                      feedIDs: seq<int>, seeded: map<int, int>, counts: map<int, int>,
                                      subtracted: set<int>, totalArticles: int)
    requires seeded.Keys == feeds && Aligned(st, keys, feedIDs, feeds, cutoff)
    requires forall f :: f in feeds ==> seeded[f] == |InWindow(st, f, cutoff)|
    requires CountsLess(st, seeded, counts, subtracted)
    requires forall id :: id in subtracted ==> id in keys && st.IsRead(userID, id)
    requires totalArticles == Sum(feeds, FeedSizes(st, feeds))
    ensures Stats(totalArticles, Sum(feeds, counts), |set f | f in counts && counts[f] > 0|)
         == StatsMissing(st, userID, feeds, cutoff, ReadAmong(st, userID, keys) - subtracted)
  {
    TotalMatches(st, feeds, totalArticles);
    UnreadMatches(st, userID, feeds, cutoff, keys, feedIDs, seeded, counts, subtracted);
  }

  /** The Datastore statistics are the SQLite ones, except that recent read articles whose status was
      not read count as unread: the article total is exact, and the other two are off by at most the
      number of such articles, never too small. */
  method GetAccountStats(st: Store, userID: int, userFeeds: seq<int>, cutoff: int, chunkSize: nat, faults: Faults)
    returns (r: Result<Stats>, ghost keys: seq<int>, ghost missed: set<int>)
    requires Distinct(userFeeds) && chunkSize > 0
    ensures r.Ok? <==> forall f :: f in userFeeds ==> f !in faults.feedQueries
    ensures r.Ok? ==> RecentKeys(st, userFeeds, cutoff, keys)
    ensures r.Ok? ==> MissedExactly(st, userID, keys, chunkSize, faults, missed)
    ensures r.Ok? ==> r.value == StatsMissing(st, userID, (set f | f in userFeeds), cutoff, missed)
    ensures r.Ok? ==> ShiftedBy(r.value, DirectStats(st, userID, (set f | f in userFeeds), cutoff), |missed|)
    ensures r.Ok? && faults.chunks == {} && faults.statuses == {} ==>
      r.value == DirectStats(st, userID, (set f | f in userFeeds), cutoff)
  {
    missed := {};
    var ok, seeded, allKeys, feedIDs, totalArticles := SeedCounts(st, userFeeds, cutoff, faults.feedQueries);
    keys := allKeys;
    if !ok {
      return Err("article query failed"), keys, {};
    }
    ghost var feeds := set f | f in userFeeds;
    ghost var subtracted;
    var counts;
    counts, subtracted := SubtractRead(st, userID, seeded, allKeys, feedIDs, chunkSize, faults, cutoff);
    var totalUnread, activeFeeds := Totals(counts);
    missed := ReadAmong(st, userID, keys) - subtracted;
    KeysAreRecent(st, userFeeds, cutoff, keys, feedIDs, feeds);
    MissedAreLost(st, userID, keys, chunkSize, faults, subtracted, missed);
    StatsMatch(st, userID, feeds, cutoff, keys, feedIDs, seeded, counts, subtracted, totalArticles);
    StatsShift(st, userID, feeds, cutoff, missed);
    r := Ok(Stats(totalArticles, totalUnread, activeFeeds));
  }
}
