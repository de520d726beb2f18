/** When a feed is checked, and how its tracked update interval evolves. */
module Polling {
  import opened Feeds
  import FeedSchedule

  // ---------------------------------------------------------------------------------------
  // The decision.
  // ---------------------------------------------------------------------------------------

  /** Is the feed due? */
  function ShouldCheckFeed(feed: Feed, now: int): bool {
    if feed.lastChecked == 0 then true
    else
      var timeSinceLastCheck := now - feed.lastChecked;
      if feed.averageUpdateInterval > 0 then
        timeSinceLastCheck >= feed.averageUpdateInterval * SECOND / 2
      else if feed.lastHadNewContent != 0 then
        var timeSinceNewContent := now - feed.lastHadNewContent;
        if timeSinceNewContent < 7 * DAY then timeSinceLastCheck >= 30 * MINUTE
        else if timeSinceNewContent < 30 * DAY then timeSinceLastCheck >= 1 * HOUR
        else timeSinceLastCheck >= 6 * HOUR
      else
        timeSinceLastCheck >= 1 * HOUR
  }

  /** The decision in nanoseconds: half the average interval when it is known; otherwise 30 minutes, one
      hour or six hours by the age of the latest content, and one hour without any. */
  lemma {:induction false} DueExactly(feed: Feed, now: int)
    ensures feed.lastChecked == 0 ==> ShouldCheckFeed(feed, now)
    ensures feed.lastChecked != 0 ==>
      var passed, contentAge := now - feed.lastChecked, now - feed.lastHadNewContent;
      && (feed.averageUpdateInterval > 0 ==>
            (ShouldCheckFeed(feed, now) <==> passed >= feed.averageUpdateInterval * 500_000_000))
      && (feed.averageUpdateInterval <= 0 && feed.lastHadNewContent == 0 ==>
            (ShouldCheckFeed(feed, now) <==> passed >= 3_600_000_000_000))
      && (feed.averageUpdateInterval <= 0 && feed.lastHadNewContent != 0 && contentAge < 604_800_000_000_000 ==>
            (ShouldCheckFeed(feed, now) <==> passed >= 1_800_000_000_000))
      && (feed.averageUpdateInterval <= 0 && feed.lastHadNewContent != 0
          && 604_800_000_000_000 <= contentAge < 2_592_000_000_000_000 ==>
            (ShouldCheckFeed(feed, now) <==> passed >= 3_600_000_000_000))
      && (feed.averageUpdateInterval <= 0 && feed.lastHadNewContent != 0 && contentAge >= 2_592_000_000_000_000 ==>
            (ShouldCheckFeed(feed, now) <==> passed >= 21_600_000_000_000))
  {
  }

  /** The shortest gap that can make a feed due: half its average interval, or half an hour, or one
      hour before it had any content. */
  function MinGap(feed: Feed): int {
    if feed.averageUpdateInterval > 0 then feed.averageUpdateInterval * SECOND / 2
    else if feed.lastHadNewContent != 0 then 30 * MINUTE
    else 1 * HOUR
  }

  /** The gap that always does: the same with a known average or before any content, else six hours. */
  function MaxGap(feed: Feed): int {
    if feed.averageUpdateInterval <= 0 && feed.lastHadNewContent != 0 then 6 * HOUR else MinGap(feed)
  }

  /** Never due before the minimum gap, and from the maximum gap on due at every later moment. With a
      known average, before any content, or while the content is recent the minimum gap decides, and
      the maximum gap does once the content is 30 days old. */
  lemma {:induction false} DueBetweenGaps(feed: Feed, now: int)
    requires feed.lastChecked != 0
    ensures now - feed.lastChecked < MinGap(feed) ==> !ShouldCheckFeed(feed, now)
    ensures now - feed.lastChecked >= MaxGap(feed) ==> forall later :: later >= now ==> ShouldCheckFeed(feed, later)
    ensures var gap, age := now - feed.lastChecked, now - feed.lastHadNewContent;
      var fixed := feed.averageUpdateInterval > 0 || feed.lastHadNewContent == 0;
      && (fixed || age < 7 * DAY ==> (ShouldCheckFeed(feed, now) <==> gap >= MinGap(feed)))
      && (fixed || age >= 30 * DAY ==> (ShouldCheckFeed(feed, now) <==> gap >= MaxGap(feed)))
  {
  }

  /** In between, being due need not last: a feed without an average whose latest content grows old
      falls under a longer gap at one week and at 30 days. What is due now stays due exactly when the
      gaps that apply from those two moments on are over by then. */
  predicate DueLasts(feed: Feed, now: int) {
    feed.averageUpdateInterval > 0 || feed.lastHadNewContent == 0 ||
    (&& (now < feed.lastHadNewContent + 7 * DAY ==>
           feed.lastHadNewContent + 7 * DAY - feed.lastChecked >= 1 * HOUR)
     && (now < feed.lastHadNewContent + 30 * DAY ==>
           feed.lastHadNewContent + 30 * DAY - feed.lastChecked >= 6 * HOUR))
  }

  lemma {:induction false} DueLastsExactly(feed: Feed, now: int)
    requires feed.lastChecked != 0 && ShouldCheckFeed(feed, now)
    ensures DueLasts(feed, now) <==> forall later :: later >= now ==> ShouldCheckFeed(feed, later)
  {
    if !DueLasts(feed, now) {
      var week, month := feed.lastHadNewContent + 7 * DAY, feed.lastHadNewContent + 30 * DAY;
      assert (now < week && !ShouldCheckFeed(feed, week)) || (now < month && !ShouldCheckFeed(feed, month));
    }
  }

  /** The failing family is not empty: checked half an hour before its latest content is a week old,
      a feed is due at one moment and no longer due the next. */
  lemma {:induction false} DueCanLapse() returns (feed: Feed, now: int)
    ensures ShouldCheckFeed(feed, now) && !ShouldCheckFeed(feed, now + 1)
    ensures now - feed.lastChecked >= MinGap(feed) && !DueLasts(feed, now)
  {
    feed := Feed(1, "u", 0, 7 * DAY - 30 * MINUTE, 1, 0);
    now := 7 * DAY;
  }

  // ---------------------------------------------------------------------------------------
  // Tracking writes.
  // ---------------------------------------------------------------------------------------

  /** Go's integer division: towards zero. */
  function TruncDiv(a: int, b: int): int
    requires b > 0
  {
    if a >= 0 then a / b else -((-a) / b)
  }

  /** The running average after one more observed interval: 70% old, 30% new. */
  function NextAverage(average: int, interval: int): int {
    if average > 0 then TruncDiv(average * 7 + interval * 3, 10) else interval
  }

  function Tracked(feed: Feed, hadNewContent: bool, now: int): Feed {
    feed.(lastChecked := now,
          lastHadNewContent := if hadNewContent then now else feed.lastHadNewContent,
          averageUpdateInterval :=
            if hadNewContent && feed.lastHadNewContent != 0
            then NextAverage(feed.averageUpdateInterval, TruncDiv(now - feed.lastHadNewContent, SECOND))
            else feed.averageUpdateInterval)
  }

  /** q is a / b rounded towards zero. */
  predicate IsQuotient(a: int, b: int, q: int) {
    if a >= 0 then b * q <= a < b * q + b else b * q - b < a <= b * q
  }

  /** What a tracking write changes: the check is recorded now, new content too; from the second new
      content on, the average is the whole seconds since the previous one, or, once there is an
      average, seven tenths of it and three tenths of those seconds. */
  lemma {:induction false} TrackedExactly(feed: Feed, hadNewContent: bool, now: int) returns (seconds: int)
    ensures IsQuotient(now - feed.lastHadNewContent, 1_000_000_000, seconds)
    ensures var t := Tracked(feed, hadNewContent, now);
      && t.id == feed.id && t.url == feed.url && t.lastFetch == feed.lastFetch && t.lastChecked == now
      && t.lastHadNewContent == (if hadNewContent then now else feed.lastHadNewContent)
      && (!hadNewContent || feed.lastHadNewContent == 0 ==> t.averageUpdateInterval == feed.averageUpdateInterval)
      && (hadNewContent && feed.lastHadNewContent != 0 ==>
            if feed.averageUpdateInterval > 0
            then IsQuotient(7 * feed.averageUpdateInterval + 3 * seconds, 10, t.averageUpdateInterval)
            else t.averageUpdateInterval == seconds)
  {
    seconds := TruncDiv(now - feed.lastHadNewContent, SECOND);
  }

  method UpdateFeedTracking(feed: Feed, hadNewContent: bool, now: int) returns (stored: Feed)
    ensures stored == Tracked(feed, hadNewContent, now)
  {
    var lastHadNewContent := feed.lastHadNewContent;
    var averageUpdateInterval := feed.averageUpdateInterval;
    if hadNewContent {
      if feed.lastHadNewContent != 0 {
        var intervalSeconds := TruncDiv(now - feed.lastHadNewContent, SECOND);
        if averageUpdateInterval > 0 {
          averageUpdateInterval := TruncDiv(averageUpdateInterval * 7 + intervalSeconds * 3, 10);
        } else {
          averageUpdateInterval := intervalSeconds;
        }
      }
      lastHadNewContent := now;
    }
    stored := feed.(lastChecked := now, lastHadNewContent := lastHadNewContent,
                    averageUpdateInterval := averageUpdateInterval);
  }

  /** The same tracking fields and the fetch time in a single write. */
  method UpdateFeedAfterRefreshSuccess(feed: Feed, hadNewContent: bool, lastFetch: int, now: int) returns (stored: Feed)
    ensures stored == Tracked(feed, hadNewContent, now).(lastFetch := lastFetch)
  {
    stored := UpdateFeedTracking(feed, hadNewContent, now);
    stored := stored.(lastFetch := lastFetch);
  }

  // ---------------------------------------------------------------------------------------
  // Refreshes of one feed, one after another.
  // ---------------------------------------------------------------------------------------

  /** One refresh of a feed: the clock when it starts and when its tracking is written, whether the
      domain limiter lets it through, whether fetching succeeds, and how many articles the feed then
      holds and how many of them the save counts. */
  datatype Event = Event(now: int, trackedAt: int, allowed: bool, fetched: bool, articles: nat, savedCount: nat)

  /** The save reports an error when there was something to save and nothing was counted, also if all
      of it was known already. */
  predicate Saves(e: Event) {
    e.savedCount > 0 || e.articles == 0
  }

  predicate Fetches(feed: Feed, e: Event) {
    ShouldCheckFeed(feed, e.now) && e.allowed
  }

  function Refreshed(feed: Feed, e: Event): Feed {
    if !Fetches(feed, e) then feed
    else if !e.fetched || !Saves(e) then Tracked(feed, false, e.trackedAt)
    else Tracked(feed, e.savedCount > 0, e.trackedAt).(lastFetch := e.now)
  }

  /** The worker's body: skipped when not due or rate limited, otherwise counted as checked. */
  method UpdateSingleFeed(feed: Feed, e: Event, checked0: int, skipped0: int)
    returns (stored: Feed, checked: int, skipped: int)
    ensures stored == Refreshed(feed, e)
    ensures checked + skipped == checked0 + skipped0 + 1
    ensures checked == checked0 + 1 <==> Fetches(feed, e)
  {
    stored, checked, skipped := feed, checked0, skipped0;
    if !ShouldCheckFeed(feed, e.now) {
      skipped := skipped + 1;
      return;
    }
    if !e.allowed {
      skipped := skipped + 1;
      return;
    }
    checked := checked + 1;
    if !e.fetched {
      stored := UpdateFeedTracking(feed.(lastChecked := e.now), false, e.trackedAt);
      return;
    }
    if e.savedCount == 0 && e.articles > 0 {
      stored := UpdateFeedTracking(feed.(lastChecked := e.now), false, e.trackedAt);
      return;
    }
    var hadNewContent := e.savedCount > 0;
    stored := UpdateFeedTracking(feed.(lastChecked := e.now), hadNewContent, e.trackedAt);
    stored := stored.(lastFetch := e.now);
  }

  /** Refreshes that do not overlap, each reading what the one before wrote. */
  ghost predicate IsRun(feeds: seq<Feed>, events: seq<Event>) {
    && |feeds| == |events| + 1
    && (forall k :: 0 <= k < |events| ==>
          0 < events[k].now <= events[k].trackedAt && feeds[k + 1] == Refreshed(feeds[k], events[k]))
    && forall k :: 0 <= k < |events| - 1 ==> events[k].trackedAt <= events[k + 1].now
  }

  lemma {:induction false} SkipsChangeNothing(feeds: seq<Feed>, events: seq<Event>, i: nat, j: nat)
    requires IsRun(feeds, events) && i <= j < |feeds|
    requires forall k :: i <= k < j ==> !Fetches(feeds[k], events[k])
    ensures feeds[j] == feeds[i]
    decreases j
  {
    if i < j {
      SkipsChangeNothing(feeds, events, i, j - 1);
    }
  }

  lemma {:induction false} ClockIsMonotone(feeds: seq<Feed>, events: seq<Event>, i: nat, j: nat)
    requires IsRun(feeds, events) && i < j < |events|
    ensures events[i].trackedAt <= events[j].now
    decreases j
  {
    if i < j - 1 {
      ClockIsMonotone(feeds, events, i, j - 1);
    }
  }

  /** Polling spacing: two consecutive fetches of a feed are at least half its average interval
      apart, as stored after the first of them; without one, half an hour, or one hour while it never
      had content. */
  lemma {:induction false} FetchesAreSpaced(feeds: seq<Feed>, events: seq<Event>, i: nat, j: nat)
    requires IsRun(feeds, events) && i < j < |events|
    requires Fetches(feeds[i], events[i]) && Fetches(feeds[j], events[j])
    requires forall k :: i < k < j ==> !Fetches(feeds[k], events[k])
    ensures events[j].now - events[i].now >= MinGap(feeds[i + 1])
  {
    SkipsChangeNothing(feeds, events, i + 1, j);
    ClockIsMonotone(feeds, events, i, j);
    DueBetweenGaps(feeds[j], events[j].now);
  }

  /** The domain limiter lets the refreshes i+1..k through. */
  ghost predicate AllAllowed(events: seq<Event>, i: nat, k: nat)
    requires k < |events|
  {
    forall m :: i < m <= k ==> events[m].allowed
  }

  /** No starvation: after a fetch, once half the average has passed since the check was recorded, some
      refresh has fetched the feed again; without an average, once six hours have, or one hour if it
      never had content. */
  lemma {:induction false} NoStarvation(feeds: seq<Feed>, events: seq<Event>, i: nat, k: nat) returns (j: nat)
    requires IsRun(feeds, events) && i < k < |events| && Fetches(feeds[i], events[i]) && AllAllowed(events, i, k)
    requires events[k].now - events[i].trackedAt >= MaxGap(feeds[i + 1])
    ensures i < j <= k && Fetches(feeds[j], events[j])
  {
    if m :| i < m < k && Fetches(feeds[m], events[m]) {
      j := m;
    } else {
      j := k;
      SkipsChangeNothing(feeds, events, i + 1, k);
      DueBetweenGaps(feeds[k], events[k].now);
    }
  }

  /** Polling gaps: with refreshes at most `period` apart, the next fetch comes at most that gap and one
      period after the check was recorded. */
  lemma {:induction false} FetchGapsAreBounded(feeds: seq<Feed>, events: seq<Event>, i: nat, j: nat, period: int)
    requires IsRun(feeds, events) && i < j < |events| && AllAllowed(events, i, j)
    requires Fetches(feeds[i], events[i]) && Fetches(feeds[j], events[j])
    requires forall k :: i < k < j ==> !Fetches(feeds[k], events[k])
    requires forall k :: i <= k < j ==> events[k + 1].now - events[k].now <= period
    ensures events[j].now - events[i].trackedAt <= MaxGap(feeds[i + 1]) + period
  {
    var last := j - 1;
    assert events[last + 1].now - events[last].now <= period;
    if i < last {
      SkipsChangeNothing(feeds, events, i + 1, last);
      DueBetweenGaps(feeds[last], events[last].now);
    }
  }

  // ---------------------------------------------------------------------------------------
  // When a last fetch is written.
  // ---------------------------------------------------------------------------------------

  /** A refresh writes a last fetch exactly when it fetches the feed, successfully, and something was
      counted or there was nothing to save; it records new content exactly when something was. */
  lemma {:induction false} LastFetchExactly(feed: Feed, e: Event)
    ensures var after := Refreshed(feed, e);
      && (!Fetches(feed, e) ==> after == feed)
      && (Fetches(feed, e) ==> after.lastChecked == e.trackedAt)
      && (after.lastFetch ==
            if Fetches(feed, e) && e.fetched && (e.savedCount > 0 || e.articles == 0) then e.now else feed.lastFetch)
      && (after.lastHadNewContent ==
            if Fetches(feed, e) && e.fetched && e.savedCount > 0 then e.trackedAt else feed.lastHadNewContent)
  {
  }

  /** However often a feed is fetched, while it offers articles but no insert is counted its last fetch
      stays what it was. */
  lemma {:induction false} KnownArticlesKeepLastFetch(feeds: seq<Feed>, events: seq<Event>, i: nat, j: nat)
    requires IsRun(feeds, events) && i <= j < |feeds|
    requires forall k :: i <= k < j ==> events[k].articles > 0 && events[k].savedCount == 0
    ensures feeds[j].lastFetch == feeds[i].lastFetch
    decreases j
  {
    if i < j {
      KnownArticlesKeepLastFetch(feeds, events, i, j - 1);
    }
  }

  /** So the schedule does not space such fetches: its minimum interval counts from the older fetch,
      and once that is over the feed is due by its hash alone, however recently it was fetched. */
  lemma {:induction false} KnownArticlesAreNotSpaced(feeds: seq<Feed>, events: seq<Event>, i: nat, j: nat,
                                                     now: int, updateWindow: int, minInterval: int)
    requires IsRun(feeds, events) && i <= j < |feeds| && updateWindow > 0
    requires forall k :: i <= k < j ==> events[k].articles > 0 && events[k].savedCount == 0
    ensures FeedSchedule.EntryFor(feeds[j], now, updateWindow, minInterval).nextUpdate
         == now + FeedSchedule.Missing(feeds[i].lastFetch, now, minInterval)
              + FeedSchedule.FeedHash(feeds[j].id) % updateWindow
  {
    KnownArticlesKeepLastFetch(feeds, events, i, j);
  }

  // ---------------------------------------------------------------------------------------
  // The running average.
  // ---------------------------------------------------------------------------------------

  /** The average after observing the given intervals, starting from `start` (0: unknown). */
  function AverageAfter(start: int, intervals: seq<int>): int {
    if intervals == [] then start
    else NextAverage(AverageAfter(start, intervals[..|intervals| - 1]), intervals[|intervals| - 1])
  }

  /** The intervals the first k refreshes of a run observe: those that count new articles, from the
      second such refresh on. */
  ghost function Observed(feeds: seq<Feed>, events: seq<Event>, k: nat): seq<int>
    requires k <= |events| < |feeds|
  {
    if k == 0 then [] else
      var feed, e := feeds[k - 1], events[k - 1];
      Observed(feeds, events, k - 1) +
      if Fetches(feed, e) && e.fetched && e.savedCount > 0 && feed.lastHadNewContent != 0
      then [TruncDiv(e.trackedAt - feed.lastHadNewContent, SECOND)]
      else []
  }

  /** The average stored at any point of a run is that of the intervals observed so far. */
  lemma {:induction false} RunStoresAverage(feeds: seq<Feed>, events: seq<Event>, k: nat)
    requires IsRun(feeds, events) && k <= |events|
    ensures feeds[k].averageUpdateInterval == AverageAfter(feeds[0].averageUpdateInterval, Observed(feeds, events, k))
  {
    if k > 0 {
      RunStoresAverage(feeds, events, k - 1);
      var before, after := Observed(feeds, events, k - 1), Observed(feeds, events, k);
      assert feeds[k] == Refreshed(feeds[k - 1], events[k - 1]);
      if |after| > |before| {
        assert after[..|after| - 1] == before;
      } else {
        assert after == before;
      }
    }
  }

  /** The average never leaves the hull of what was observed. */
  lemma {:induction false} AverageStaysInHull(start: int, intervals: seq<int>, lo: int, hi: int)
    requires 0 <= lo && (forall i :: 0 <= i < |intervals| ==> lo <= intervals[i] <= hi)
    requires start == 0 || lo <= start <= hi
    requires start != 0 || intervals != []
    ensures lo <= AverageAfter(start, intervals) <= hi
  {
    if intervals != [] {
      var n := |intervals| - 1;
      if n > 0 || start != 0 {
        AverageStaysInHull(start, intervals[..n], lo, hi);
      }
    }
  }

  /** Under a constant interval the average only moves towards it, and rests exactly on the interval
      or up to three seconds below. The first observation sets it. */
  lemma {:induction false} ConstantIntervalAttracts(average: int, interval: int)
    requires average >= 0 && interval >= 0
    ensures average <= interval ==> average <= NextAverage(average, interval) <= interval
    ensures average >= interval ==> interval <= NextAverage(average, interval) <= average
    ensures average > 0 ==> (NextAverage(average, interval) == average <==> interval - 3 <= average <= interval)
    ensures average == 0 ==> NextAverage(average, interval) == interval
  {
  }

  function Distance(a: int, b: int): nat {
    if a < b then b - a else a - b
  }

  /** Updates until the average rests. */
  ghost function StepsToRest(average: int, interval: int): nat
    requires average >= 0 && interval >= 0
    decreases Distance(average, interval)
  {
    ConstantIntervalAttracts(average, interval);
    var next := NextAverage(average, interval);
    if next == average then 0 else 1 + StepsToRest(next, interval)
  }

  function Constant(interval: int, n: nat): seq<int> {
    seq(n, _ => interval)
  }

  lemma {:induction false} FirstThenRest(average: int, interval: int, n: nat)
    ensures AverageAfter(average, Constant(interval, n + 1))
         == AverageAfter(NextAverage(average, interval), Constant(interval, n))
  {
    assert Constant(interval, n + 1)[..n] == Constant(interval, n);
    if n > 0 {
      FirstThenRest(average, interval, n - 1);
      assert Constant(interval, n)[..n - 1] == Constant(interval, n - 1);
    } else {
      assert Constant(interval, 0) == [];
    }
  }

  /** A constant interval is reached, to within three seconds from below, after finitely many
      updates: no more than the initial distance in seconds. */
  lemma {:induction false} AverageConverges(average: int, interval: int)
    requires average >= 0 && interval >= 0
    ensures var n := StepsToRest(average, interval);
      && interval - 3 <= AverageAfter(average, Constant(interval, n)) <= interval
      && n <= Distance(average, interval)
    decreases Distance(average, interval)
  {
    ConstantIntervalAttracts(average, interval);
    var next := NextAverage(average, interval);
    if next != average {
      AverageConverges(next, interval);
      FirstThenRest(average, interval, StepsToRest(next, interval));
    } else {
      assert Constant(interval, 0) == [];
    }
  }

  /** Once there, it stays there; a known average does not even move. */
  lemma {:induction false} AverageRests(average: int, interval: int, n: nat)
    requires average >= 0 && interval >= 0 && interval - 3 <= average <= interval
    ensures interval - 3 <= AverageAfter(average, Constant(interval, n)) <= interval
    ensures average > 0 ==> AverageAfter(average, Constant(interval, n)) == average
    ensures AverageAfter(average, Constant(interval, n)) >= 0
  {
    if n > 0 {
      AverageRests(average, interval, n - 1);
      assert Constant(interval, n)[..n - 1] == Constant(interval, n - 1);
      ConstantIntervalAttracts(AverageAfter(average, Constant(interval, n - 1)), interval);
    }
  }
}
