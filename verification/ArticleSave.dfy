/** Saving the articles of a fetched feed: sort by date, limit, skip URLs a batch query reports as
    known, insert the rest one by one. */
module ArticleSave {
  import opened Collections
  import opened ArticleStore

  /** One article of a parsed feed. */
  datatype Item = Item(title: string, link: string, content: string, description: string,
                       author: string, publishedAt: int)

  function RowFor(feedID: int, item: Item, now: int): Article {
    Article(feedID, item.title, item.link, item.content, item.description, item.author, item.publishedAt, now)
  }

  /** The article table with its id counter. */
  datatype Table = Table(rows: map<int, Article>, nextId: int) {
    function Urls(): set<string> {
      set id | id in rows :: rows[id].url
    }

    ghost predicate Valid() {
      && (forall id :: id in rows ==> id < nextId)
      && (forall i, j :: i in rows && j in rows && rows[i].url == rows[j].url ==> i == j)
    }

    /** Inserting unless the URL is taken. */
    function Added(a: Article): Table {
      if a.url in Urls() then this else Table(rows[nextId := a], nextId + 1)
    }
  }

  // ---------------------------------------------------------------------------------------
  // The pipeline without its shortcut: sort, limit, insert each.
  // ---------------------------------------------------------------------------------------

  function Saved(t: Table, feedID: int, items: seq<Item>, now: int, fails: set<int>): Table {
    if items == [] then t else
      var n := |items| - 1;
      var t' := Saved(t, feedID, items[..n], now, fails);
      if n in fails then t' else t'.Added(RowFor(feedID, items[n], now))
  }

  /** The links the loop hands to the insert with success: neither pre-filtered nor failing. */
  function Attempted(items: seq<Item>, existing: set<string>, fails: set<int>): seq<string> {
    if items == [] then [] else
      var n := |items| - 1;
      var links := Attempted(items[..n], existing, fails);
      if n in fails || items[n].link in existing then links else links + [items[n].link]
  }

  ghost predicate ByDate(s: seq<Item>) {
    forall i, j :: 0 <= i < j < |s| ==> s[i].publishedAt >= s[j].publishedAt
  }

  /** `kept` and `dropped` are the two parts of some newest-first permutation of the items. */
  ghost predicate IsCut(items: seq<Item>, maxArticles: int, kept: seq<Item>, dropped: seq<Item>) {
    && multiset(kept + dropped) == multiset(items) && ByDate(kept + dropped)
    && |kept| == (if maxArticles > 0 then Min(maxArticles, |items|) else |items|)
  }

  function InsertByDate(x: Item, s: seq<Item>): (t: seq<Item>)
    ensures multiset(t) == multiset(s) + multiset{x}
  {
    if s == [] || x.publishedAt > s[0].publishedAt then
      assert multiset([x] + s) == multiset{x} + multiset(s);
      [x] + s
    else
      assert s == [s[0]] + s[1..];
      [s[0]] + InsertByDate(x, s[1..])
  }

  lemma {:induction false} InsertKeepsOrder(x: Item, s: seq<Item>)
    requires ByDate(s)
    ensures ByDate(InsertByDate(x, s))
  {
    if s != [] && !(x.publishedAt > s[0].publishedAt) {
      InsertKeepsOrder(x, s[1..]);
      forall y | y in InsertByDate(x, s[1..]) ensures s[0].publishedAt >= y.publishedAt {
        assert y in multiset(InsertByDate(x, s[1..]));
        assert y == x || y in s[1..];
      }
    }
  }

  function InsertionSorted(items: seq<Item>): (sorted: seq<Item>)
    ensures multiset(sorted) == multiset(items) && ByDate(sorted) && |sorted| == |items|
  {
    if items == [] then [] else
      var rest := InsertionSorted(items[1..]);
      InsertKeepsOrder(items[0], rest);
      var sorted := InsertByDate(items[0], rest);
      assert items == [items[0]] + items[1..];
      assert |multiset(sorted)| == |multiset(items)|;
      sorted
  }

  /** sort.Slice by date: some newest-first permutation. Callers do not know the order of equal
      dates. */
  method SortByDate(items: seq<Item>) returns (sorted: seq<Item>)
    ensures multiset(sorted) == multiset(items) && ByDate(sorted) && |sorted| == |items|
  {
    sorted := InsertionSorted(items);
  }

  // ---------------------------------------------------------------------------------------
  // What a save does to the table.
  // ---------------------------------------------------------------------------------------

  lemma {:induction false} AddedUrls(t: Table, a: Article)
    requires t.Valid()
    ensures t.Added(a).Urls() == t.Urls() + {a.url}
  {
    var s := t.Added(a);
    if a.url !in t.Urls() {
      forall u ensures u in s.Urls() <==> u in t.Urls() + {a.url} {
        if u in t.Urls() {
          var id :| id in t.rows && t.rows[id].url == u;
          assert id in s.rows && s.rows[id].url == u;
        }
        if u == a.url {
          assert s.rows[t.nextId].url == u;
        }
      }
      SameSet(s.Urls(), t.Urls() + {a.url});
    } else {
      SameSet(t.Urls(), t.Urls() + {a.url});
    }
  }

  /** No existing row is altered or removed, URLs stay unique, ids stay fresh. */
  lemma {:induction false} SavedGrows(t: Table, feedID: int, items: seq<Item>, now: int, fails: set<int>)
    requires t.Valid()
    ensures var s := Saved(t, feedID, items, now, fails);
      && s.Valid() && t.Urls() <= s.Urls() && t.nextId <= s.nextId
      && forall id :: id in t.rows ==> id in s.rows && s.rows[id] == t.rows[id]
  {
    if items != [] {
      var n := |items| - 1;
      SavedGrows(t, feedID, items[..n], now, fails);
      AddedUrls(Saved(t, feedID, items[..n], now, fails), RowFor(feedID, items[n], now));
    }
  }

  /** The row belongs to the feed saved, was created now, and has the item's own fields. */
  ghost predicate HoldsItem(row: Article, feedID: int, item: Item, now: int) {
    && row.feedID == feedID && row.createdAt == now && row.url == item.link && row.publishedAt == item.publishedAt
    && row.title == item.title && row.content == item.content && row.description == item.description
    && row.author == item.author
  }

  ghost predicate HoldsSome(row: Article, feedID: int, items: seq<Item>, now: int) {
    exists item :: item in items && HoldsItem(row, feedID, item, now)
  }

  /** Every row a save adds holds an item it kept, under a URL that was free before. */
  lemma {:induction false} NewRowsComeFromItems(t: Table, feedID: int, items: seq<Item>, now: int,
                                                fails: set<int>, id: int)
    returns (i: nat)
    requires t.Valid() && id in Saved(t, feedID, items, now, fails).rows && id !in t.rows
    ensures i < |items| && i !in fails && items[i].link !in t.Urls()
    ensures HoldsItem(Saved(t, feedID, items, now, fails).rows[id], feedID, items[i], now)
  {
    var n := |items| - 1;
    SavedGrows(t, feedID, items[..n], now, fails);
    if id in Saved(t, feedID, items[..n], now, fails).rows {
      i := NewRowsComeFromItems(t, feedID, items[..n], now, fails, id);
    } else {
      i := n;
    }
  }

  /** Everything kept is in the table afterwards, except where the insert failed. */
  lemma {:induction false} KeptItemsArePresent(t: Table, feedID: int, items: seq<Item>, now: int,
                                               fails: set<int>, i: nat)
    requires t.Valid() && i < |items| && i !in fails
    ensures items[i].link in Saved(t, feedID, items, now, fails).Urls()
  {
    var n := |items| - 1;
    var before := Saved(t, feedID, items[..n], now, fails);
    SavedGrows(t, feedID, items[..n], now, fails);
    AddedUrls(before, RowFor(feedID, items[n], now));
    if i < n {
      KeptItemsArePresent(t, feedID, items[..n], now, fails, i);
    }
  }

  /** The limit keeps the newest: whatever was dropped is no more recent than any added row. */
  lemma {:induction false} AddedRowsAreNewest(t: Table, feedID: int, items: seq<Item>, maxArticles: int,
                                              now: int, fails: set<int>,
                           kept: seq<Item>, dropped: seq<Item>, id: int, d: Item)
    requires t.Valid() && IsCut(items, maxArticles, kept, dropped) && d in dropped
    requires id in Saved(t, feedID, kept, now, fails).rows && id !in t.rows
    ensures Saved(t, feedID, kept, now, fails).rows[id].publishedAt >= d.publishedAt
  {
    var i := NewRowsComeFromItems(t, feedID, kept, now, fails, id);
    var j :| 0 <= j < |dropped| && dropped[j] == d;
    assert (kept + dropped)[i] == kept[i] && (kept + dropped)[|kept| + j] == d;
  }

  /** How many inserts report success: one for each kept item the pre-filter did not know, unless it
      fails. */
  lemma {:induction false} AttemptsAreCounted(items: seq<Item>, existing: set<string>, fails: set<int>)
    ensures |Attempted(items, existing, fails)|
         == |set i | 0 <= i < |items| && i !in fails && items[i].link !in existing|
  {
    var all := set i | 0 <= i < |items| && i !in fails && items[i].link !in existing;
    if items == [] {
      SameSet(all, {});
    } else {
      var n := |items| - 1;
      var front := set i | 0 <= i < n && i !in fails && items[i].link !in existing;
      AttemptsAreCounted(items[..n], existing, fails);
      SameSet(front, set i | 0 <= i < |items[..n]| && i !in fails && items[..n][i].link !in existing);
      SameSet(all, if n in fails || items[n].link in existing then front else front + {n});
    }
  }

  // ---------------------------------------------------------------------------------------
  // The pipeline as it runs.
  // ---------------------------------------------------------------------------------------

  class ArticleTable {
    var rows: map<int, Article>
    var nextId: int

    ghost function State(): Table
      reads this
    {
      Table(rows, nextId)
    }

    constructor (rows: map<int, Article>, nextId: int)
      ensures State() == Table(rows, nextId)
    {
      this.rows, this.nextId := rows, nextId;
    }

    /** INSERT ... ON CONFLICT(url) DO UPDATE SET id=id: success either way, and the id of the row
        that holds the URL. */
    method AddArticle(a: Article) returns (id: int)
      requires State().Valid()
      modifies this
      ensures State() == old(State()).Added(a) && State().Valid()
      ensures id in rows && rows[id].url == a.url
    {
      if a.url in (set i | i in rows :: rows[i].url) {
        id :| id in rows && rows[id].url == a.url;
        return;
      }
      id := nextId;
      rows := rows[nextId := a];
      nextId := nextId + 1;
    }

    /** The loop over the articles to save. */
    method SaveEach(feedID: int, articlesToSave: seq<Item>, now: int, existing: set<string>, fails: set<int>)
      returns (savedCount: nat)
      requires State().Valid() && existing <= State().Urls()
      modifies this
      ensures State() == Saved(old(State()), feedID, articlesToSave, now, fails) && State().Valid()
      ensures savedCount == |Attempted(articlesToSave, existing, fails)|
    {
      savedCount := 0;
      ghost var before := State();
      var i := 0;
      while i < |articlesToSave|
        invariant 0 <= i <= |articlesToSave|
        invariant State() == Saved(before, feedID, articlesToSave[..i], now, fails) && State().Valid()
        invariant savedCount == |Attempted(articlesToSave[..i], existing, fails)|
      {
        var item := articlesToSave[i];
        assert articlesToSave[..i + 1][..i] == articlesToSave[..i];
        if item.link in existing {
          SavedGrows(before, feedID, articlesToSave[..i], now, fails);
          assert item.link in State().Urls();
        } else if i !in fails {
          var _ := AddArticle(RowFor(feedID, item, now));
          savedCount := savedCount + 1;
        }
        i := i + 1;
      }
      assert articlesToSave[..i] == articlesToSave;
    }

    /** Saving one feed. `existing` is whatever the URL pre-filter answered (nothing when it
        failed), `fails` the positions whose insert returns an error. `kept` and `dropped` are the
        two sides of the limit. */
    method SaveArticlesFromFeedWithLimit(feedID: int, items: seq<Item>, maxArticles: int, now: int,
                                         existing: set<string>, fails: set<int>)
      returns (savedCount: nat, err: bool, ghost kept: seq<Item>, ghost dropped: seq<Item>)
      requires State().Valid() && existing <= State().Urls()
      modifies this
      ensures IsCut(items, maxArticles, kept, dropped)
      ensures State() == Saved(old(State()), feedID, kept, now, fails) && State().Valid()
      ensures savedCount == |Attempted(kept, existing, fails)|
      ensures |kept| == if maxArticles > 0 && |items| > maxArticles then maxArticles else |items|
      ensures savedCount == |set i | 0 <= i < |kept| && i !in fails && kept[i].link !in existing|
      ensures forall id :: id in rows && id !in old(rows) ==> HoldsSome(rows[id], feedID, kept, now)
      ensures err <==> savedCount == 0 && kept != []
    {
      ghost var before := State();
      var articles := SortByDate(items);
      var articlesToSave := articles;
      if maxArticles > 0 && |articles| > maxArticles {
        articlesToSave := articles[..maxArticles];
      }
      kept, dropped := articlesToSave, articles[|articlesToSave|..];
      assert kept + dropped == articles;
      savedCount := SaveEach(feedID, articlesToSave, now, existing, fails);
      AttemptsAreCounted(kept, existing, fails);
      forall id | id in rows && id !in before.rows ensures HoldsSome(rows[id], feedID, kept, now) {
        var i := NewRowsComeFromItems(before, feedID, kept, now, fails, id);
        assert kept[i] in kept;
      }
      err := savedCount == 0 && |articlesToSave| > 0;
    }
  }

  // ---------------------------------------------------------------------------------------
  // The pre-filter and the reported count.
  // ---------------------------------------------------------------------------------------

  /** SQLite: the given URLs this feed already has. */
  function FilterExistingSqlite(t: Table, feedID: int, urls: set<string>): set<string> {
    set id | id in t.rows && t.rows[id].feedID == feedID && t.rows[id].url in urls :: t.rows[id].url
  }

  const URL_DEDUPLICATION_WINDOW: int := 90 * 24 * 3600 * 1_000_000_000

  /** Datastore: the same, among articles created in the last 90 days. */
  function FilterExistingDatastore(t: Table, feedID: int, urls: set<string>, now: int): set<string> {
    set id | id in t.rows && t.rows[id].feedID == feedID && t.rows[id].createdAt >= now - URL_DEDUPLICATION_WINDOW
             && t.rows[id].url in urls :: t.rows[id].url
  }

  /** Both filters, and the empty fallback, are answers the save accepts; by the save's contract the
      resulting table does not depend on which. */
  lemma {:induction false} FiltersAreSound(t: Table, feedID: int, urls: set<string>, now: int)
    ensures FilterExistingDatastore(t, feedID, urls, now) <= FilterExistingSqlite(t, feedID, urls)
    ensures FilterExistingSqlite(t, feedID, urls) <= t.Urls() * urls
  {
  }

  /** What the filters miss of the URLs given: those stored under another feed, and on Datastore also
      those whose row was created more than 90 days ago. */
  lemma {:induction false} FiltersMissExactly(t: Table, feedID: int, urls: set<string>, now: int, id: int)
    requires t.Valid() && id in t.rows && t.rows[id].url in urls
    ensures t.rows[id].url !in FilterExistingSqlite(t, feedID, urls) <==> t.rows[id].feedID != feedID
    ensures t.rows[id].url !in FilterExistingDatastore(t, feedID, urls, now)
       <==> t.rows[id].feedID != feedID || now - t.rows[id].createdAt > 7_776_000_000_000_000
  {
  }

  lemma {:induction false} SavedUrls(t: Table, feedID: int, items: seq<Item>, now: int, fails: set<int>,
                                     existing: set<string>)
    requires t.Valid() && existing <= t.Urls()
    ensures Saved(t, feedID, items, now, fails).Urls()
         == t.Urls() + set u | u in Attempted(items, existing, fails)
  {
    var added := set u | u in Attempted(items, existing, fails);
    if items == [] {
      SameSet(t.Urls(), t.Urls() + added);
    } else {
      var n := |items| - 1;
      SavedUrls(t, feedID, items[..n], now, fails, existing);
      SavedGrows(t, feedID, items[..n], now, fails);
      AddedUrls(Saved(t, feedID, items[..n], now, fails), RowFor(feedID, items[n], now));
      SameSet(Saved(t, feedID, items, now, fails).Urls(), t.Urls() + added);
    }
  }

  ghost predicate AllFresh(links: seq<string>, taken: set<string>) {
    Distinct(links) && forall u :: u in links ==> u !in taken
  }

  lemma {:induction false} AllFreshStep(links: seq<string>, taken: set<string>, u: string)
    ensures AllFresh(links + [u], taken) <==> AllFresh(links, taken) && u !in links && u !in taken
  {
    var longer := links + [u];
    assert longer[|links|] == u;
    if AllFresh(longer, taken) {
      assert forall i :: 0 <= i < |links| ==> longer[i] == links[i];
      assert forall x :: x in links ==> x in longer;
    }
    if AllFresh(links, taken) && u !in links {
      DistinctConcat(links, [u]);
    }
  }

  /** The reported count is at least the number of new rows. It is that number exactly when the
      links handed to the insert were all free and pairwise different: an insert that runs into an
      existing URL also counts as saved. */
  lemma {:induction false} SavedCountBoundsNewRows(t: Table, feedID: int, items: seq<Item>, now: int, fails: set<int>,
                                                   existing: set<string>)
    requires t.Valid() && existing <= t.Urls()
    ensures var added := |Saved(t, feedID, items, now, fails).rows| - |t.rows|;
      var count := |Attempted(items, existing, fails)|;
      && 0 <= added <= count
      && (added == count <==> AllFresh(Attempted(items, existing, fails), t.Urls()))
  {
    if items != [] {
      var n := |items| - 1;
      var before := Saved(t, feedID, items[..n], now, fails);
      var links := Attempted(items[..n], existing, fails);
      SavedCountBoundsNewRows(t, feedID, items[..n], now, fails, existing);
      SavedUrls(t, feedID, items[..n], now, fails, existing);
      SavedGrows(t, feedID, items[..n], now, fails);
      AllFreshStep(links, t.Urls(), items[n].link);
    }
  }

  /** A feed that lists one link twice: two counted, one row. */
  lemma {:induction false} RepeatedLinkIsCountedTwice() returns (items: seq<Item>)
    ensures |Attempted(items, {}, {})| == 2
    ensures |Saved(Table(map[], 0), 1, items, 0, {}).rows| == 1
  {
    var x := Item("", "u", "", "", "", 0);
    items := [x, x];
    assert items[..1] == [x] && [x][..0] == [];
    var t := Table(map[], 0);
    var s := Saved(t, 1, [x], 0, {});
    assert Saved(t, 1, [x][..0], 0, {}) == t && t.Urls() == {};
    assert s == t.Added(RowFor(1, x, 0)) && s.rows[0].url == "u";
    assert Attempted([x], {}, {}) == ["u"];
  }

  // ---------------------------------------------------------------------------------------
  // Saving the same feed again.
  // ---------------------------------------------------------------------------------------

  lemma {:induction false} NothingNew(t: Table, feedID: int, items: seq<Item>, now: int, fails: set<int>)
    requires forall i :: 0 <= i < |items| && i !in fails ==> items[i].link in t.Urls()
    ensures Saved(t, feedID, items, now, fails) == t
  {
    if items != [] {
      NothingNew(t, feedID, items[..|items| - 1], now, fails);
    }
  }

  /** The link is stored, or the link of a kept item whose insert succeeded. */
  ghost predicate StoredAfter(t: Table, kept: seq<Item>, fails: set<int>, link: string) {
    link in t.Urls() || exists i :: 0 <= i < |kept| && i !in fails && kept[i].link == link
  }

  lemma {:induction false} StoredAfterStep(t: Table, kept: seq<Item>, fails: set<int>, link: string)
    requires kept != []
    ensures var n := |kept| - 1;
      StoredAfter(t, kept, fails, link)
      <==> StoredAfter(t, kept[..n], fails, link) || (n !in fails && kept[n].link == link)
  {
    var n := |kept| - 1;
    assert forall i :: 0 <= i < n ==> kept[..n][i] == kept[i];
  }

  lemma {:induction false} UrlsAfter(t: Table, feedID: int, kept: seq<Item>, now: int, fails: set<int>, link: string)
    requires t.Valid()
    ensures link in Saved(t, feedID, kept, now, fails).Urls() <==> StoredAfter(t, kept, fails, link)
  {
    if kept != [] {
      var n := |kept| - 1;
      var before := Saved(t, feedID, kept[..n], now, fails);
      UrlsAfter(t, feedID, kept[..n], now, fails, link);
      SavedGrows(t, feedID, kept[..n], now, fails);
      AddedUrls(before, RowFor(feedID, kept[n], now));
      StoredAfterStep(t, kept, fails, link);
    }
  }

  /** A second save, of whatever cut and whenever it comes, changes nothing exactly when every item
      whose insert succeeds in it was stored before the first save or by it. */
  lemma {:induction false} SecondSaveChangesNothing(t: Table, feedID: int, kept: seq<Item>, now: int, fails: set<int>,
                                                    kept': seq<Item>, later: int, fails': set<int>)
    requires t.Valid()
    ensures var s := Saved(t, feedID, kept, now, fails);
      Saved(s, feedID, kept', later, fails') == s
      <==> forall j :: 0 <= j < |kept'| && j !in fails' ==> StoredAfter(t, kept, fails, kept'[j].link)
  {
    var s := Saved(t, feedID, kept, now, fails);
    SavedGrows(t, feedID, kept, now, fails);
    forall j | 0 <= j < |kept'|
      ensures kept'[j].link in s.Urls() <==> StoredAfter(t, kept, fails, kept'[j].link)
    {
      UrlsAfter(t, feedID, kept, now, fails, kept'[j].link);
    }
    if forall j :: 0 <= j < |kept'| && j !in fails' ==> StoredAfter(t, kept, fails, kept'[j].link) {
      NothingNew(s, feedID, kept', later, fails');
    } else {
      var j :| 0 <= j < |kept'| && j !in fails' && !StoredAfter(t, kept, fails, kept'[j].link);
      KeptItemsArePresent(s, feedID, kept', later, fails', j);
    }
  }

  function SinceDate(d: int): Item -> bool {
    (x: Item) => x.publishedAt >= d
  }

  /** The items that are not older than d. */
  function NotOlder(items: seq<Item>, d: int): seq<Item> {
    Where(items, SinceDate(d))
  }

  /** No tie across the limit: the limit takes everything, or some date separates exactly the items
      it keeps from the older ones. */
  ghost predicate LimitSeparates(items: seq<Item>, maxArticles: int) {
    maxArticles <= 0 || |items| <= maxArticles || exists d :: |NotOlder(items, d)| == maxArticles
  }

  lemma {:induction false} KeptBeforeDropped(kept: seq<Item>, dropped: seq<Item>)
    requires ByDate(kept + dropped)
    ensures forall x, y :: x in kept && y in dropped ==> x.publishedAt >= y.publishedAt
  {
    forall x, y | x in kept && y in dropped ensures x.publishedAt >= y.publishedAt {
      var i :| 0 <= i < |kept| && kept[i] == x;
      var j :| 0 <= j < |dropped| && dropped[j] == y;
      assert (kept + dropped)[i] == x && (kept + dropped)[|kept| + j] == y;
    }
  }

  /** Cut a sorted feed where as many items are kept as are not older than d: they are the ones. */
  lemma {:induction false} FrontIsNotOlder(kept: seq<Item>, dropped: seq<Item>, d: int)
    requires ByDate(kept + dropped) && |NotOlder(kept + dropped, d)| == |kept|
    ensures NotOlder(kept + dropped, d) == kept
  {
    var p := SinceDate(d);
    WhereSplit(kept, dropped, p);
    WhereAll(kept, p);
    WhereNone(dropped, p);
    KeptBeforeDropped(kept, dropped);
  }

  lemma {:induction false} SeparatedKeeps(items: seq<Item>, maxArticles: int, kept: seq<Item>,
                                          dropped: seq<Item>, d: int)
    requires IsCut(items, maxArticles, kept, dropped) && |NotOlder(items, d)| == |kept|
    ensures multiset(kept) == multiset(NotOlder(items, d))
  {
    WherePermuted(items, kept + dropped, SinceDate(d));
    FrontIsNotOlder(kept, dropped, d);
  }

  /** Without a tie across the limit every cut keeps the same items. */
  lemma {:induction false} SeparatedCutsAgree(items: seq<Item>, maxArticles: int, kept: seq<Item>, dropped: seq<Item>,
                                              kept': seq<Item>, dropped': seq<Item>)
    requires LimitSeparates(items, maxArticles)
    requires IsCut(items, maxArticles, kept, dropped) && IsCut(items, maxArticles, kept', dropped')
    ensures multiset(kept) == multiset(kept')
  {
    PermutedSeq(kept + dropped, items);
    PermutedSeq(kept' + dropped', items);
    if maxArticles <= 0 || |items| <= maxArticles {
      assert dropped == [] && dropped' == [];
      assert kept + dropped == kept && kept' + dropped' == kept';
    } else {
      var d :| |NotOlder(items, d)| == maxArticles;
      SeparatedKeeps(items, maxArticles, kept, dropped, d);
      SeparatedKeeps(items, maxArticles, kept', dropped', d);
    }
  }

  /** Without a tie across the limit, saving the same feed again changes nothing, in whatever order
      equal dates are sorted either time, if all inserts of the first save succeeded. */
  lemma {:induction false} RepeatedSaveChangesNothing(t: Table, feedID: int, items: seq<Item>, maxArticles: int,
                                                      kept: seq<Item>, dropped: seq<Item>, now: int,
                                                      kept': seq<Item>, dropped': seq<Item>, later: int,
                                                      fails': set<int>)
    requires t.Valid() && LimitSeparates(items, maxArticles)
    requires IsCut(items, maxArticles, kept, dropped) && IsCut(items, maxArticles, kept', dropped')
    ensures var s := Saved(t, feedID, kept, now, {}); Saved(s, feedID, kept', later, fails') == s
  {
    SeparatedCutsAgree(items, maxArticles, kept, dropped, kept', dropped');
    forall j | 0 <= j < |kept'| ensures StoredAfter(t, kept, {}, kept'[j].link) {
      assert kept'[j] in multiset(kept);
      var i :| 0 <= i < |kept| && kept[i] == kept'[j];
    }
    SecondSaveChangesNothing(t, feedID, kept, now, {}, kept', later, fails');
  }
}
