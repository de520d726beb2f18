/** Which feeds a staggered refresh covers, and when each is due. One clock reading is taken per
    schedule. */
module FeedSchedule {
  import opened Collections
  import opened Feeds
  import Cursor

  datatype ScheduledFeed = ScheduledFeed(feed: Feed, nextUpdate: int, priority: int)

  // ---------------------------------------------------------------------------------------
  // Deduplication by URL.
  // ---------------------------------------------------------------------------------------

  function ByUrl(feeds: seq<Feed>): map<string, Feed> {
    if feeds == [] then map[] else
      var n := |feeds| - 1;
      ByUrl(feeds[..n])[feeds[n].url := feeds[n]]
  }

  /** Position of the last feed with the given URL. */
  ghost predicate IsLast(feeds: seq<Feed>, url: string, i: int) {
    0 <= i < |feeds| && feeds[i].url == url && forall j :: i < j < |feeds| ==> feeds[j].url != url
  }

  /** The map has one entry per URL, and later feeds win: a subscribed feed replaces the global
      copy of it. */
  lemma {:induction false} LastFeedWins(feeds: seq<Feed>, url: string)
    ensures url in ByUrl(feeds) <==> exists i :: IsLast(feeds, url, i)
    ensures forall i :: IsLast(feeds, url, i) ==> ByUrl(feeds)[url] == feeds[i]
  {
    if feeds != [] {
      var n := |feeds| - 1;
      LastFeedWins(feeds[..n], url);
      if feeds[n].url == url {
        assert IsLast(feeds, url, n);
      } else {
        assert forall i :: IsLast(feeds, url, i) <==> IsLast(feeds[..n], url, i);
      }
    }
  }

  method AddToMap(feeds: seq<Feed>, start: seq<Feed>, feedMap0: map<string, Feed>) returns (feedMap: map<string, Feed>)
    requires feedMap0 == ByUrl(start)
    ensures feedMap == ByUrl(start + feeds)
  {
    feedMap := feedMap0;
    var i := 0;
    assert start + feeds[..0] == start;
    while i < |feeds|
      invariant 0 <= i <= |feeds| && feedMap == ByUrl(start + feeds[..i])
    {
      assert (start + feeds[..i + 1])[..|start| + i] == start + feeds[..i];
      feedMap := feedMap[feeds[i].url := feeds[i]];
      i := i + 1;
    }
    assert start + feeds[..i] == start + feeds;
  }

  ghost predicate DistinctUrls(feeds: seq<Feed>) {
    forall i, j :: 0 <= i < j < |feeds| ==> feeds[i].url != feeds[j].url
  }

  lemma {:induction false} KeyedByUrl(feeds: seq<Feed>)
    ensures forall url :: url in ByUrl(feeds) ==> ByUrl(feeds)[url].url == url
  {
    if feeds != [] {
      KeyedByUrl(feeds[..|feeds| - 1]);
    }
  }

  /** Every distinct URL once, in the order the map happens to be ranged over. */
  method GetAllUniqueFeeds(globalFeeds: seq<Feed>, allUserFeeds: seq<Feed>) returns (feeds: seq<Feed>)
    ensures DistinctUrls(feeds)
    ensures forall f :: f in feeds <==>
      f.url in ByUrl(globalFeeds + allUserFeeds) && ByUrl(globalFeeds + allUserFeeds)[f.url] == f
  {
    var feedMap := AddToMap(globalFeeds, [], map[]);
    assert [] + globalFeeds == globalFeeds;
    feedMap := AddToMap(allUserFeeds, globalFeeds, feedMap);
    KeyedByUrl(globalFeeds + allUserFeeds);
    feeds := [];
    var pending := feedMap.Keys;
    while pending != {}
      invariant pending <= feedMap.Keys
      invariant DistinctUrls(feeds)
      invariant forall f :: f in feeds <==> f.url in feedMap && f.url !in pending && feedMap[f.url] == f
    {
      var url := AnyOf(pending);
      pending := pending - {url};
      assert forall f :: f in feeds ==> f.url != url;
      feeds := feeds + [feedMap[url]];
    }
  }

  // ---------------------------------------------------------------------------------------
  // Delay and priority of one feed.
  // ---------------------------------------------------------------------------------------

  const TWO_TO_32: int := 0x1_0000_0000

  predicate Ascii(s: string) {
    forall i :: 0 <= i < |s| ==> s[i] < 128 as char
  }

  /** Bitwise exclusive or. */
  function Xor(a: nat, b: nat): nat {
    if b == 0 then a else 2 * Xor(a / 2, b / 2) + (if a % 2 == b % 2 then 0 else 1)
  }

  /** FNV-1a over the bytes of s, modulo 2^32. */
  function Fnv32a(s: string): (h: nat)
    requires Ascii(s)
    ensures h < TWO_TO_32
  {
    if s == [] then 2_166_136_261 else
      var n := |s| - 1;
      (Xor(Fnv32a(s[..n]), s[n] as int) * 16_777_619) % TWO_TO_32
  }

  lemma {:induction false} DigitsAreAscii(n: nat)
    ensures Ascii(Cursor.Digits(n))
  {
    if n >= 10 {
      DigitsAreAscii(n / 10);
    }
  }

  /** The 32-bit hash of the feed id, printed in decimal. */
  function FeedHash(feedID: int): (h: int)
    ensures 0 <= h < TWO_TO_32
  {
    DigitsAreAscii(if feedID < 0 then -feedID else feedID);
    Fnv32a(Cursor.Print(feedID))
  }

  // ---------------------------------------------------------------------------------------
  // What the hash tells apart.
  // ---------------------------------------------------------------------------------------

  lemma {:induction false} XorHalves(a: nat, b: nat)
    ensures Xor(a, b) / 2 == Xor(a / 2, b / 2)
    ensures Xor(a, b) % 2 == 0 <==> a % 2 == b % 2
  {
    var x := Xor(a / 2, b / 2);
    assert (2 * x) / 2 == x && (2 * x + 1) / 2 == x;
  }

  lemma {:induction false} XorIsInjective(a: nat, b: nat, c: nat)
    requires b != c
    ensures Xor(a, b) != Xor(a, c)
    decreases b + c
  {
    XorHalves(a, b);
    XorHalves(a, c);
    if b / 2 != c / 2 {
      XorIsInjective(a / 2, b / 2, c / 2);
    }
  }

  lemma {:induction false} XorMovesLittle(a: nat, b: nat)
    ensures a - b <= Xor(a, b) <= a + b
  {
    if b != 0 {
      XorMovesLittle(a / 2, b / 2);
    }
  }

  /** The prime is odd, so multiplying by it modulo 2^32 can be undone. */
  lemma {:induction false} ProductUndone(x: int) returns (k: int)
    ensures x == (x * 16_777_619) % TWO_TO_32 * 899_433_627 + TWO_TO_32 * k
  {
    var q := x * 16_777_619 / TWO_TO_32;
    k := q * 899_433_627 - 3_513_497 * x;
  }

  lemma {:induction false} ProductsDiffer(x: int, y: int)
    requires x != y && -TWO_TO_32 < x - y < TWO_TO_32
    ensures (x * 16_777_619) % TWO_TO_32 != (y * 16_777_619) % TWO_TO_32
  {
    var j := ProductUndone(x);
    var k := ProductUndone(y);
    assert x - y == ((x * 16_777_619) % TWO_TO_32 - (y * 16_777_619) % TWO_TO_32) * 899_433_627 + TWO_TO_32 * (j - k);
  }

  lemma {:induction false} NextHash(front: string, c: char)
    requires Ascii(front) && c < 128 as char
    ensures Fnv32a(front + [c]) == (Xor(Fnv32a(front), c as int) * 16_777_619) % TWO_TO_32
  {
    assert (front + [c])[..|front|] == front;
  }

  /** Texts that differ in their last character only have different hashes. */
  lemma {:induction false} LastCharacterDecides(front: string, c: char, d: char)
    requires Ascii(front) && c < 128 as char && d < 128 as char && c != d
    ensures Fnv32a(front + [c]) != Fnv32a(front + [d])
  {
    var h := Fnv32a(front);
    NextHash(front, c);
    NextHash(front, d);
    XorIsInjective(h, c as int, d as int);
    XorMovesLittle(h, c as int);
    XorMovesLittle(h, d as int);
    ProductsDiffer(Xor(h, c as int), Xor(h, d as int));
  }

  /** So have feeds whose ids differ in the last digit only. */
  lemma {:induction false} NeighboursHashApart(a: nat, b: nat)
    requires a / 10 == b / 10 && a != b
    ensures FeedHash(a) != FeedHash(b)
  {
    var front := if a < 10 then "" else Cursor.Digits(a / 10);
    var c, d := Cursor.DigitChar(a % 10), Cursor.DigitChar(b % 10);
    assert Cursor.Digits(a) == front + [c] && Cursor.Digits(b) == front + [d];
    DigitsAreAscii(a / 10);
    LastCharacterDecides(front, c, d);
  }

  lemma {:induction false} XorStep(a: nat, i: nat, b: nat, j: nat)
    requires i < 2 && j < 2
    ensures Xor(2 * a + i, 2 * b + j) == 2 * Xor(a, b) + (if i == j then 0 else 1)
  {
    assert (2 * a + i) / 2 == a && (2 * b + j) / 2 == b;
  }

  // Single characters: `h` is the basis and `b` the character's byte, taken bit by bit from the top.

  lemma {:induction false} RoundOfLetterA(h: nat, b: nat)
    requires h == 2_166_136_261 && b == 97
    ensures Xor(h, b) == 2_166_136_228
  {
    var q := h / 128;
    XorStep(q, 1, 0, 1);
    XorStep(2 * q + 1, 0, 1, 1);
    XorStep(4 * q + 2, 0, 3, 0);
    XorStep(8 * q + 4, 0, 6, 0);
    XorStep(16 * q + 8, 1, 12, 0);
    XorStep(32 * q + 17, 0, 24, 0);
    XorStep(64 * q + 34, 1, 48, 1);
  }

  lemma {:induction false} RoundOfOneOrTwo(h: nat, b: nat)
    requires h == 2_166_136_261 && (b == 49 || b == 50)
    ensures Xor(h, b) == if b == 49 then 2_166_136_308 else 2_166_136_311
  {
    var q := h / 64;
    XorStep(q, 0, 0, 1);
    XorStep(2 * q, 0, 1, 1);
    XorStep(4 * q, 0, 3, 0);
    XorStep(8 * q, 1, 6, 0);
    XorStep(16 * q + 1, 0, 12, b - 49);
    XorStep(32 * q + 2, 1, b / 2, 50 - b);
  }

  lemma {:induction false} OneCharacter(c: char, h: nat, b: nat, x: nat)
    requires c < 128 as char && b == c as int && h == 2_166_136_261 && Xor(h, b) == x
    ensures Fnv32a([c]) == (x * 16_777_619) % TWO_TO_32
  {
    NextHash("", c);
    assert [c] == "" + [c];
  }

  lemma {:induction false} Remainder(n: nat, q: nat, r: nat)
    requires n == q * TWO_TO_32 + r && r < TWO_TO_32
    ensures n % TWO_TO_32 == r
  {
  }

  lemma {:induction false} KnownProducts()
    ensures (2_166_136_228 * 16_777_619) % TWO_TO_32 == 0xe40c_292c
    ensures (2_166_136_308 * 16_777_619) % TWO_TO_32 == 873_244_444
    ensures (2_166_136_311 * 16_777_619) % TWO_TO_32 == 923_577_301
  {
    Remainder(2_166_136_228 * 16_777_619, 8_461_672, 0xe40c_292c);
    Remainder(2_166_136_308 * 16_777_619, 8_461_673, 873_244_444);
    Remainder(2_166_136_311 * 16_777_619, 8_461_673, 923_577_301);
  }

  /** The published FNV-1a values of "" and "a" fix the basis, the prime and the order of the two
      operations. */
  lemma {:induction false} PublishedHashes(c: char, h: nat, b: nat)
    requires c == 'a' && h == 0x811c_9dc5 && b == 97
    ensures Fnv32a([]) == h && Fnv32a([c]) == 0xe40c_292c
  {
    RoundOfLetterA(h, b);
    OneCharacter(c, h, b, 2_166_136_228);
    KnownProducts();
  }

  /** The hashes of the first two feeds. */
  lemma {:induction false} FirstFeedHashes(feedID: int, c: char, h: nat, b: nat)
    requires (feedID == 1 || feedID == 2) && Cursor.Print(feedID) == [c] && b == c as int && h == 0x811c_9dc5
    ensures FeedHash(feedID) == if feedID == 1 then 873_244_444 else 923_577_301
  {
    RoundOfOneOrTwo(h, b);
    OneCharacter(c, h, b, if feedID == 1 then 2_166_136_308 else 2_166_136_311);
    KnownProducts();
  }

  /** How long after `now` a feed with the given hash is due: the hash, read as nanoseconds, within
      the window, plus what is missing to the minimum interval. */
  function DelayFor(hash: int, lastFetch: int, now: int, updateWindow: int, minInterval: int): int
    requires updateWindow > 0
  {
    var delay := hash % updateWindow;
    var timeSinceUpdate := now - lastFetch;
    if timeSinceUpdate < minInterval then delay + (minInterval - timeSinceUpdate) else delay
  }

  function StaggeredDelay(feedID: int, lastFetch: int, now: int, updateWindow: int, minInterval: int): int
    requires updateWindow > 0
  {
    DelayFor(FeedHash(feedID), lastFetch, now, updateWindow, minInterval)
  }

  function FeedPriority(lastFetch: int, now: int, minInterval: int): int {
    var timeSinceUpdate := now - lastFetch;
    var base := if timeSinceUpdate > 24 * HOUR then 80
                else if timeSinceUpdate > 6 * HOUR then 65
                else if timeSinceUpdate > 2 * HOUR then 55
                else 50;
    if timeSinceUpdate < minInterval then base - 20 else base
  }

  /** A feed not fetched for longer never has a lower priority, and the extremes are 30 and 80. */
  lemma {:induction false} PriorityGrowsWithAge(older: int, newer: int, now: int, minInterval: int)
    requires older <= newer
    ensures 30 <= FeedPriority(newer, now, minInterval) <= FeedPriority(older, now, minInterval) <= 80
    ensures FeedPriority(newer, now, minInterval) == 80 <==> now - newer > 24 * HOUR && now - newer >= minInterval
  {
  }

  /** No feed is due before its minimum interval is over. */
  lemma {:induction false} DueAfterMinInterval(hash: nat, lastFetch: int, now: int, updateWindow: int, minInterval: int)
    requires updateWindow > 0
    ensures now + DelayFor(hash, lastFetch, now, updateWindow, minInterval) >= lastFetch + minInterval
    ensures DelayFor(hash, lastFetch, now, updateWindow, minInterval) >= 0
  {
  }

  lemma {:induction false} RemainderBound(h: int, w: int)
    requires 0 <= h && 0 < w
    ensures 0 <= h % w <= h && h % w < w
    ensures h < w ==> h % w == h
  {
    if h < w {
      assert h % w == h;
    }
  }

  /** With a last fetch in the past, the delay stays below the window or 2^32 nanoseconds, whichever
      is smaller, plus the minimum interval. */
  lemma {:induction false} DelayIsBounded(hash: nat, lastFetch: int, now: int, updateWindow: int, minInterval: int)
    requires hash < TWO_TO_32 && updateWindow > 0 && minInterval > 0 && lastFetch <= now
    ensures DelayFor(hash, lastFetch, now, updateWindow, minInterval) < Min(updateWindow, TWO_TO_32) + minInterval
  {
    RemainderBound(hash, updateWindow);
  }

  /** What is missing to the minimum interval. */
  function Missing(lastFetch: int, now: int, minInterval: int): nat {
    if now - lastFetch < minInterval then minInterval - (now - lastFetch) else 0
  }

  /** Some 32-bit hash gives this delay. */
  ghost predicate Attained(delay: int, lastFetch: int, now: int, updateWindow: int, minInterval: int)
    requires updateWindow > 0
  {
    exists h: nat :: h < TWO_TO_32 && DelayFor(h, lastFetch, now, updateWindow, minInterval) == delay
  }

  /** Beyond what is missing to the minimum interval, the delays that occur are those below the window
      and 2^32 nanoseconds, no others. */
  lemma {:induction false} DelaysAttained(delay: int, lastFetch: int, now: int, updateWindow: int, minInterval: int)
    requires updateWindow > 0
    ensures var missing := Missing(lastFetch, now, minInterval);
      Attained(delay, lastFetch, now, updateWindow, minInterval)
      <==> missing <= delay < missing + Min(updateWindow, TWO_TO_32)
  {
    var missing := Missing(lastFetch, now, minInterval);
    if missing <= delay < missing + Min(updateWindow, TWO_TO_32) {
      var h: nat := delay - missing;
      RemainderBound(h, updateWindow);
      assert DelayFor(h, lastFetch, now, updateWindow, minInterval) == delay;
    }
    if h: nat :| h < TWO_TO_32 && DelayFor(h, lastFetch, now, updateWindow, minInterval) == delay {
      RemainderBound(h, updateWindow);
    }
  }

  /** Feeds are spread across the whole update window exactly when the window is at most 2^32
      nanoseconds: the 32-bit hash is a number of nanoseconds. */
  lemma {:induction false} WindowIsFilledExactly(lastFetch: int, now: int, updateWindow: int, minInterval: int)
    requires updateWindow > 0
    ensures var missing := Missing(lastFetch, now, minInterval);
      (forall d :: missing <= d < missing + updateWindow ==> Attained(d, lastFetch, now, updateWindow, minInterval))
      <==> updateWindow <= TWO_TO_32
  {
    var missing := Missing(lastFetch, now, minInterval);
    forall d ensures Attained(d, lastFetch, now, updateWindow, minInterval)
                     <==> missing <= d < missing + Min(updateWindow, TWO_TO_32) {
      DelaysAttained(d, lastFetch, now, updateWindow, minInterval);
    }
    if updateWindow > TWO_TO_32 {
      assert !Attained(missing + TWO_TO_32, lastFetch, now, updateWindow, minInterval);
    }
  }

  /** In every longer window the hash itself is the delay beyond the minimum interval. */
  lemma {:induction false} LongWindowsDelayByHash(hash: nat, lastFetch: int, now: int, updateWindow: int,
                                                  minInterval: int)
    requires hash < TWO_TO_32 <= updateWindow
    ensures DelayFor(hash, lastFetch, now, updateWindow, minInterval) == Missing(lastFetch, now, minInterval) + hash
  {
    RemainderBound(hash, updateWindow);
  }

  const DEFAULT_UPDATE_WINDOW: int := 15 * MINUTE
  const DEFAULT_MIN_INTERVAL: int := 5 * MINUTE

  /** As configured by default, a feed past its minimum interval is due within 4.3 seconds, and never
      in the rest of the 15 minutes. */
  lemma {:induction false} DefaultWindowIsNotFilled(hash: nat, lastFetch: int, now: int)
    requires hash < TWO_TO_32 && now - lastFetch >= 300_000_000_000
    ensures DelayFor(hash, lastFetch, now, DEFAULT_UPDATE_WINDOW, DEFAULT_MIN_INTERVAL) == hash < 43 * SECOND / 10
    ensures DEFAULT_UPDATE_WINDOW == 900_000_000_000 && DEFAULT_MIN_INTERVAL == 300_000_000_000
    ensures forall t :: 43 * SECOND / 10 <= t < 900_000_000_000 ==>
      !Attained(t, lastFetch, now, DEFAULT_UPDATE_WINDOW, DEFAULT_MIN_INTERVAL)
  {
    LongWindowsDelayByHash(hash, lastFetch, now, DEFAULT_UPDATE_WINDOW, DEFAULT_MIN_INTERVAL);
    forall t | 43 * SECOND / 10 <= t < DEFAULT_UPDATE_WINDOW
      ensures !Attained(t, lastFetch, now, DEFAULT_UPDATE_WINDOW, DEFAULT_MIN_INTERVAL)
    {
      DelaysAttained(t, lastFetch, now, DEFAULT_UPDATE_WINDOW, DEFAULT_MIN_INTERVAL);
    }
  }

  // ---------------------------------------------------------------------------------------
  // The schedule.
  // ---------------------------------------------------------------------------------------

  predicate DueFirst(a: ScheduledFeed, b: ScheduledFeed) {
    if a.nextUpdate == b.nextUpdate then a.priority > b.priority else a.nextUpdate < b.nextUpdate
  }

  ghost predicate InDueOrder(s: seq<ScheduledFeed>) {
    forall i, j :: 0 <= i < j < |s| ==> !DueFirst(s[j], s[i])
  }

  function InsertScheduled(x: ScheduledFeed, s: seq<ScheduledFeed>): (t: seq<ScheduledFeed>)
    ensures multiset(t) == multiset(s) + multiset{x}
  {
    if s == [] || DueFirst(x, s[0]) then
      assert multiset([x] + s) == multiset{x} + multiset(s);
      [x] + s
    else
      assert s == [s[0]] + s[1..];
      [s[0]] + InsertScheduled(x, s[1..])
  }

  lemma {:induction false} InsertKeepsDueOrder(x: ScheduledFeed, s: seq<ScheduledFeed>)
    requires InDueOrder(s)
    ensures InDueOrder(InsertScheduled(x, s))
  {
    if s != [] && !DueFirst(x, s[0]) {
      InsertKeepsDueOrder(x, s[1..]);
      forall y | y in InsertScheduled(x, s[1..]) ensures !DueFirst(y, s[0]) {
        assert y in multiset(InsertScheduled(x, s[1..]));
        assert y == x || y in s[1..];
      }
    }
  }

  /** sort.Slice with the schedule's comparator: some ordered permutation. */
  method SortScheduled(s: seq<ScheduledFeed>) returns (sorted: seq<ScheduledFeed>)
    ensures multiset(sorted) == multiset(s) && InDueOrder(sorted)
  {
    if s == [] {
      sorted := [];
    } else {
      var rest := SortScheduled(s[1..]);
      InsertKeepsDueOrder(s[0], rest);
      sorted := InsertScheduled(s[0], rest);
      assert s == [s[0]] + s[1..];
    }
  }

  /** The entry the schedule must hold for a feed. */
  function EntryFor(f: Feed, now: int, updateWindow: int, minInterval: int): ScheduledFeed
    requires updateWindow > 0
  {
    ScheduledFeed(f, now + StaggeredDelay(f.id, f.lastFetch, now, updateWindow, minInterval),
                  FeedPriority(f.lastFetch, now, minInterval))
  }

  function EntriesFor(feeds: seq<Feed>, now: int, updateWindow: int, minInterval: int): seq<ScheduledFeed>
    requires updateWindow > 0
  {
    seq(|feeds|, i requires 0 <= i < |feeds| => EntryFor(feeds[i], now, updateWindow, minInterval))
  }

  /** The entry in nanoseconds: due by the hash within the window after the minimum interval is over;
      priority 50, plus 5, 15 or 30 for a last fetch more than 2, 6 or 24 hours ago, less 20 before
      the minimum interval is over. */
  lemma {:induction false} EntryInFields(f: Feed, now: int, updateWindow: int, minInterval: int)
    requires updateWindow > 0
    ensures var s, age := EntryFor(f, now, updateWindow, minInterval), now - f.lastFetch;
      && s.feed == f
      && s.nextUpdate == now + FeedHash(f.id) % updateWindow + (if age < minInterval then minInterval - age else 0)
      && s.priority + (if age < minInterval then 20 else 0)
         == (if age <= 7_200_000_000_000 then 50
             else if age <= 21_600_000_000_000 then 55
             else if age <= 86_400_000_000_000 then 65
             else 80)
  {
  }

  /** In a window of at least 2^32 nanoseconds, the default one among them, feeds whose ids differ in the
      last digit only are due at different times if they have the same wait to the minimum interval. */
  lemma {:induction false} NeighboursAreDueApart(f: Feed, g: Feed, now: int, updateWindow: int, minInterval: int)
    requires 0 <= f.id && 0 <= g.id && f.id / 10 == g.id / 10 && f.id != g.id && updateWindow >= TWO_TO_32
    requires Missing(f.lastFetch, now, minInterval) == Missing(g.lastFetch, now, minInterval)
    ensures EntryFor(f, now, updateWindow, minInterval).nextUpdate
         != EntryFor(g, now, updateWindow, minInterval).nextUpdate
  {
    NeighboursHashApart(f.id, g.id);
    LongWindowsDelayByHash(FeedHash(f.id), f.lastFetch, now, updateWindow, minInterval);
    LongWindowsDelayByHash(FeedHash(g.id), g.lastFetch, now, updateWindow, minInterval);
  }

  /** The loop that fills the slice before it is sorted. */
  method FillEntries(feeds: seq<Feed>, now: int, updateWindow: int, minInterval: int)
    returns (scheduledFeeds: seq<ScheduledFeed>)
    requires updateWindow > 0
    ensures scheduledFeeds == EntriesFor(feeds, now, updateWindow, minInterval)
  {
    scheduledFeeds := [];
    var i := 0;
    while i < |feeds|
      invariant 0 <= i <= |feeds| && |scheduledFeeds| == i
      invariant forall k :: 0 <= k < i ==> scheduledFeeds[k] == EntryFor(feeds[k], now, updateWindow, minInterval)
    {
      var feed := feeds[i];
      var delay := StaggeredDelay(feed.id, feed.lastFetch, now, updateWindow, minInterval);
      var priority := FeedPriority(feed.lastFetch, now, minInterval);
      var scheduled := ScheduledFeed(feed, now + delay, priority);
      assert scheduled == EntryFor(feed, now, updateWindow, minInterval);
      scheduledFeeds := scheduledFeeds + [scheduled];
      i := i + 1;
    }
  }

  /** Not due before the minimum interval is over, and due less than the window and 2^32 nanoseconds
      after that or after now. */
  ghost predicate Timely(s: ScheduledFeed, now: int, updateWindow: int, minInterval: int) {
    && s.nextUpdate >= now && s.nextUpdate >= s.feed.lastFetch + minInterval
    && (s.feed.lastFetch <= now && minInterval > 0 ==>
          s.nextUpdate < now + Min(updateWindow, TWO_TO_32) + minInterval)
    && s.nextUpdate < now + Missing(s.feed.lastFetch, now, minInterval) + Min(updateWindow, TWO_TO_32)
  }

  lemma {:induction false} EntryIsTimely(f: Feed, now: int, updateWindow: int, minInterval: int)
    requires updateWindow > 0
    ensures Timely(EntryFor(f, now, updateWindow, minInterval), now, updateWindow, minInterval)
  {
    var h: nat := FeedHash(f.id);
    var delay := DelayFor(h, f.lastFetch, now, updateWindow, minInterval);
    DueAfterMinInterval(h, f.lastFetch, now, updateWindow, minInterval);
    assert Attained(delay, f.lastFetch, now, updateWindow, minInterval);
    DelaysAttained(delay, f.lastFetch, now, updateWindow, minInterval);
  }

  lemma {:induction false} EntriesAreTimely(feeds: seq<Feed>, now: int, updateWindow: int, minInterval: int)
    requires updateWindow > 0
    ensures forall s :: s in EntriesFor(feeds, now, updateWindow, minInterval) ==>
      Timely(s, now, updateWindow, minInterval)
  {
    forall s | s in EntriesFor(feeds, now, updateWindow, minInterval)
      ensures Timely(s, now, updateWindow, minInterval)
    {
      var i :| 0 <= i < |feeds| && s == EntryFor(feeds[i], now, updateWindow, minInterval);
      EntryIsTimely(feeds[i], now, updateWindow, minInterval);
    }
  }

  /** The schedule: one entry per feed, ordered by due time and then by priority, each timely. */
  method CreateStaggeredSchedule(feeds: seq<Feed>, now: int, updateWindow: int, minInterval: int)
    returns (scheduledFeeds: seq<ScheduledFeed>)
    requires updateWindow > 0
    ensures multiset(scheduledFeeds) == multiset(EntriesFor(feeds, now, updateWindow, minInterval))
    ensures forall s :: s in scheduledFeeds ==> Timely(s, now, updateWindow, minInterval)
    ensures forall i, j :: 0 <= i < j < |scheduledFeeds| ==>
      scheduledFeeds[i].nextUpdate < scheduledFeeds[j].nextUpdate
      || (scheduledFeeds[i].nextUpdate == scheduledFeeds[j].nextUpdate
          && scheduledFeeds[i].priority >= scheduledFeeds[j].priority)
  {
    var filled := FillEntries(feeds, now, updateWindow, minInterval);
    EntriesAreTimely(feeds, now, updateWindow, minInterval);
    scheduledFeeds := SortScheduled(filled);
    forall s | s in scheduledFeeds ensures s in filled {
      assert s in multiset(filled);
    }
  }
}
