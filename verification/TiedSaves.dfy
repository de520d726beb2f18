/** Saving a feed again under an article limit, in general: stored links and repeated links can make a
    tie across the limit harmless. */
module TiedSaves {
  import opened Collections
  import opened ArticleSave

  // ---------------------------------------------------------------------------------------
  // The items of a feed by date, and at one date by link.
  // ---------------------------------------------------------------------------------------

  function Newer(d: int): Item -> bool {
    (x: Item) => x.publishedAt > d
  }

  function Tied(d: int): Item -> bool {
    (x: Item) => x.publishedAt == d
  }

  function Older(d: int): Item -> bool {
    (x: Item) => x.publishedAt < d
  }

  function TiedWith(d: int, link: string): Item -> bool {
    (x: Item) => x.publishedAt == d && x.link == link
  }

  function TiedOther(d: int, link: string): Item -> bool {
    (x: Item) => x.publishedAt == d && x.link != link
  }

  function Count(items: seq<Item>, p: Item -> bool): nat {
    |Where(items, p)|
  }

  /** The limit falls among the items of date d: fewer than n are newer, and at least n not older. */
  predicate CutsAt(items: seq<Item>, n: nat, d: int) {
    Count(items, Newer(d)) < n <= Count(items, Newer(d)) + Count(items, Tied(d))
  }

  lemma {:induction false} CountsAddUp(items: seq<Item>, d: int, link: string)
    ensures Count(items, Newer(d)) + Count(items, Tied(d)) + Count(items, Older(d)) == |items|
    ensures Count(items, TiedWith(d, link)) + Count(items, TiedOther(d, link)) == Count(items, Tied(d))
    ensures |NotOlder(items, d)| == Count(items, Newer(d)) + Count(items, Tied(d))
  {
    if items != [] {
      CountsAddUp(items[..|items| - 1], d, link);
    }
  }

  lemma {:induction false} CountPermuted(items: seq<Item>, a: seq<Item>, b: seq<Item>, p: Item -> bool)
    requires multiset(a + b) == multiset(items)
    ensures Count(items, p) == Count(a, p) + Count(b, p)
  {
    WhereSplit(a, b, p);
    WherePermuted(a + b, items, p);
  }

  /** Every item the limit keeps is not older than the date it falls at, every dropped one not newer. */
  lemma {:induction false} CutDates(items: seq<Item>, n: nat, d: int, kept: seq<Item>, dropped: seq<Item>)
    requires 0 < n <= |items| && IsCut(items, n, kept, dropped) && CutsAt(items, n, d)
    ensures forall x :: x in kept ==> x.publishedAt >= d
    ensures forall y :: y in dropped ==> y.publishedAt <= d
    ensures Count(kept, Newer(d)) == Count(items, Newer(d)) && Count(kept, Newer(d)) + Count(kept, Tied(d)) == n
  {
    KeptBeforeDropped(kept, dropped);
    CountsAddUp(kept, d, "");
    CountsAddUp(dropped, d, "");
    CountPermuted(items, kept, dropped, Newer(d));
    CountPermuted(items, kept, dropped, Tied(d));
    WhereNone(kept, Older(d));
    WhereNone(dropped, Newer(d));
    if x :| x in kept && x.publishedAt < d {
      WhereNone(dropped, Newer(d));
      WhereNone(dropped, Tied(d));
    }
    if y :| y in dropped && y.publishedAt > d {
      WhereNone(kept, Older(d));
      WhereNone(kept, Tied(d));
    }
  }

  // ---------------------------------------------------------------------------------------
  // Harmless ties.
  // ---------------------------------------------------------------------------------------

  /** Any two cuts of the same feed, saved one after the other without failures, store no more than
      the first of them. */
  ghost predicate RepeatsAreIdle(t: Table, feedID: int, items: seq<Item>, maxArticles: int, now: int, later: int) {
    forall kept, dropped, kept', dropped' ::
      IsCut(items, maxArticles, kept, dropped) && IsCut(items, maxArticles, kept', dropped') ==>
        Saved(Saved(t, feedID, kept, now, {}), feedID, kept', later, {}) == Saved(t, feedID, kept, now, {})
  }

  /** The tied link is stored, or some strictly newer item has it, or too few tied items have other
      links to fill the places left. */
  ghost predicate HarmlessTie(t: Table, items: seq<Item>, n: nat, d: int, link: string) {
    || link in t.Urls()
    || (exists y :: y in items && y.publishedAt > d && y.link == link)
    || Count(items, Newer(d)) + Count(items, TiedOther(d, link)) < n
  }

  ghost predicate HarmlessTies(t: Table, items: seq<Item>, n: nat, d: int) {
    forall x :: x in items && x.publishedAt == d ==> HarmlessTie(t, items, n, d, x.link)
  }

  lemma {:induction false} IsStored(t: Table, kept: seq<Item>, x: Item)
    requires x in kept
    ensures StoredAfter(t, kept, {}, x.link)
  {
    var i :| 0 <= i < |kept| && kept[i] == x;
  }

  /** A link some cut keeps is kept by every cut, stored, or not harmless. */
  lemma {:induction false} HarmlessIsStored(t: Table, items: seq<Item>, n: nat, d: int, kept: seq<Item>,
                                            dropped: seq<Item>, x: Item)
    requires 0 < n <= |items| && IsCut(items, n, kept, dropped) && CutsAt(items, n, d)
    requires x in items && x.publishedAt >= d && (x.publishedAt == d ==> HarmlessTie(t, items, n, d, x.link))
    ensures StoredAfter(t, kept, {}, x.link)
  {
    CutDates(items, n, d, kept, dropped);
    PermutedSeq(kept + dropped, items);
    var link := x.link;
    if link in t.Urls() {
    } else if y :| y in items && y.publishedAt > d && y.link == link {
      assert y in kept + dropped;
      IsStored(t, kept, y);
    } else {
      CountsAddUp(kept, d, link);
      CountPermuted(items, kept, dropped, TiedOther(d, link));
      var z := SomeWhere(kept, TiedWith(d, link));
      IsStored(t, kept, z);
    }
  }

  lemma {:induction false} HarmlessIsIdle(t: Table, feedID: int, items: seq<Item>, n: nat, d: int, now: int, later: int)
    requires t.Valid() && 0 < n <= |items| && CutsAt(items, n, d) && HarmlessTies(t, items, n, d)
    ensures RepeatsAreIdle(t, feedID, items, n, now, later)
  {
    forall kept: seq<Item>, dropped: seq<Item>, kept': seq<Item>, dropped': seq<Item>
      | IsCut(items, n, kept, dropped) && IsCut(items, n, kept', dropped')
      ensures Saved(Saved(t, feedID, kept, now, {}), feedID, kept', later, {}) == Saved(t, feedID, kept, now, {})
    {
      CutDates(items, n, d, kept', dropped');
      PermutedSeq(kept' + dropped', items);
      forall j | 0 <= j < |kept'| ensures StoredAfter(t, kept, {}, kept'[j].link) {
        assert kept'[j] in kept' && kept'[j] in kept' + dropped';
        HarmlessIsStored(t, items, n, d, kept, dropped, kept'[j]);
      }
      SecondSaveChangesNothing(t, feedID, kept, now, {}, kept', later, {});
    }
  }

  // ---------------------------------------------------------------------------------------
  // Harmful ties: two sorts that differ in which tied items come first.
  // ---------------------------------------------------------------------------------------

  lemma {:induction false} ConcatByDate(a: seq<Item>, b: seq<Item>)
    requires ByDate(a) && ByDate(b) && forall x, y :: x in a && y in b ==> x.publishedAt >= y.publishedAt
    ensures ByDate(a + b)
  {
    forall i, j | 0 <= i < j < |a + b| ensures (a + b)[i].publishedAt >= (a + b)[j].publishedAt {
      if i < |a| <= j {
        assert a[i] in a && b[j - |a|] in b;
      }
    }
  }

  /** The newer items, then two groups of tied ones, then the older items. */
  lemma {:induction false} GroupedByDate(newer: seq<Item>, first: seq<Item>, second: seq<Item>,
                                         older: seq<Item>, d: int)
    requires ByDate(newer) && ByDate(older)
    requires (forall x :: x in newer ==> x.publishedAt > d) && (forall x :: x in older ==> x.publishedAt < d)
    requires forall x :: x in first || x in second ==> x.publishedAt == d
    ensures ByDate((newer + first) + (second + older))
  {
    ConcatByDate(newer, first);
    ConcatByDate(second, older);
    ConcatByDate(newer + first, second + older);
  }

  lemma {:induction false} GroupsAreAll(items: seq<Item>, newer: seq<Item>, older: seq<Item>, d: int, link: string)
    requires multiset(newer) == multiset(Where(items, Newer(d))) && multiset(older) == multiset(Where(items, Older(d)))
    ensures var same, other := Where(items, TiedWith(d, link)), Where(items, TiedOther(d, link));
      && multiset((newer + same) + (other + older)) == multiset(items)
      && multiset((newer + other) + (same + older)) == multiset(items)
  {
    var same, other := Where(items, TiedWith(d, link)), Where(items, TiedOther(d, link));
    var all := multiset(newer) + multiset(same) + multiset(other) + multiset(older);
    forall x ensures all[x] == multiset(items)[x] {
      WhereCounts(items, Newer(d), x);
      WhereCounts(items, Older(d), x);
      WhereCounts(items, TiedWith(d, link), x);
      WhereCounts(items, TiedOther(d, link), x);
    }
    SameCounts(all, multiset(items));
  }

  /** The cut of a sorted feed. */
  lemma {:induction false} CutOf(items: seq<Item>, sorted: seq<Item>, n: nat)
    requires multiset(sorted) == multiset(items) && ByDate(sorted) && 0 < n <= |sorted|
    ensures IsCut(items, n, sorted[..n], sorted[n..])
  {
    assert sorted == sorted[..n] + sorted[n..];
    PermutedSeq(sorted, items);
  }

  lemma {:induction false} GroupMembers(items: seq<Item>, newer: seq<Item>, older: seq<Item>, d: int, link: string)
    requires multiset(newer) == multiset(Where(items, Newer(d))) && multiset(older) == multiset(Where(items, Older(d)))
    ensures |newer| == Count(items, Newer(d))
    ensures forall x :: x in newer ==> x in items && x.publishedAt > d
    ensures forall x :: x in older ==> x.publishedAt < d
    ensures forall x :: x in Where(items, TiedWith(d, link)) ==> x.publishedAt == d && x.link == link
    ensures forall x :: x in Where(items, TiedOther(d, link)) ==> x.publishedAt == d && x.link != link
  {
    PermutedSeq(newer, Where(items, Newer(d)));
    PermutedSeq(older, Where(items, Older(d)));
    WhereMembers(items, Newer(d));
    WhereMembers(items, Older(d));
    WhereMembers(items, TiedWith(d, link));
    WhereMembers(items, TiedOther(d, link));
  }

  /** One sort puts the tied items with other links first, another those with this link. */
  lemma {:induction false} TwoSorts(items: seq<Item>, n: nat, d: int, link: string) returns (a: seq<Item>, b: seq<Item>)
    requires 0 < n <= |items| && CutsAt(items, n, d) && Count(items, TiedWith(d, link)) > 0
    requires Count(items, Newer(d)) + Count(items, TiedOther(d, link)) >= n
    ensures |a| == |b| == |items| && IsCut(items, n, a[..n], a[n..]) && IsCut(items, n, b[..n], b[n..])
    ensures forall i :: 0 <= i < n ==> a[i] in items && (a[i].publishedAt > d || a[i].link != link)
    ensures Count(items, Newer(d)) < n && b[Count(items, Newer(d))].link == link
  {
    var newer, older := InsertionSorted(Where(items, Newer(d))), InsertionSorted(Where(items, Older(d)));
    var same, other := Where(items, TiedWith(d, link)), Where(items, TiedOther(d, link));
    GroupMembers(items, newer, older, d, link);
    GroupsAreAll(items, newer, older, d, link);
    GroupedByDate(newer, other, same, older, d);
    GroupedByDate(newer, same, other, older, d);
    a, b := (newer + other) + (same + older), (newer + same) + (other + older);
    PermutedSeq(a, items);
    PermutedSeq(b, items);
    CutOf(items, a, n);
    CutOf(items, b, n);
    forall i | 0 <= i < n ensures a[i] in items && (a[i].publishedAt > d || a[i].link != link) {
      assert a[i] == (newer + other)[i] && (newer + other)[i] in newer + other && a[i] in a;
    }
    assert b[|newer|] == same[0] && same[0] in same;
  }

  lemma {:induction false} HarmfulAddsRow(t: Table, feedID: int, items: seq<Item>, n: nat, d: int, link: string,
                                          now: int, later: int)
    requires t.Valid() && 0 < n <= |items| && CutsAt(items, n, d)
    requires Count(items, TiedWith(d, link)) > 0 && !HarmlessTie(t, items, n, d, link)
    ensures !RepeatsAreIdle(t, feedID, items, n, now, later)
  {
    var a, b := TwoSorts(items, n, d, link);
    forall i | 0 <= i < n ensures a[..n][i].link != link {
      assert a[..n][i] == a[i];
    }
    var j := Count(items, Newer(d));
    assert b[..n][j].link == link && !StoredAfter(t, a[..n], {}, link);
    SecondSaveChangesNothing(t, feedID, a[..n], now, {}, b[..n], later, {});
  }

  /** For any feed and any table: saving the feed again never adds a row, however equal dates are sorted
      either time, exactly when the limit takes everything or every tie at the limit is harmless. */
  lemma {:induction false} RepeatsAreIdleInGeneral(t: Table, feedID: int, items: seq<Item>, maxArticles: int, d: int,
                                                   now: int, later: int)
    requires t.Valid() && (0 < maxArticles < |items| ==> CutsAt(items, maxArticles, d))
    ensures RepeatsAreIdle(t, feedID, items, maxArticles, now, later)
       <==> (0 < maxArticles < |items| ==> HarmlessTies(t, items, maxArticles, d))
  {
    if !(0 < maxArticles < |items|) {
      forall kept: seq<Item>, dropped: seq<Item>, kept': seq<Item>, dropped': seq<Item>
        | IsCut(items, maxArticles, kept, dropped) && IsCut(items, maxArticles, kept', dropped')
        ensures Saved(Saved(t, feedID, kept, now, {}), feedID, kept', later, {}) == Saved(t, feedID, kept, now, {})
      {
        RepeatedSaveChangesNothing(t, feedID, items, maxArticles, kept, dropped, now, kept', dropped', later, {});
      }
    } else if HarmlessTies(t, items, maxArticles, d) {
      HarmlessIsIdle(t, feedID, items, maxArticles, d, now, later);
    } else {
      var x :| x in items && x.publishedAt == d && !HarmlessTie(t, items, maxArticles, d, x.link);
      WhereMembers(items, TiedWith(d, x.link));
      assert x in Where(items, TiedWith(d, x.link));
      HarmfulAddsRow(t, feedID, items, maxArticles, d, x.link, now, later);
    }
  }

  lemma {:induction false} LastOfKept(items: seq<Item>, n: nat, d: int, kept: seq<Item>, dropped: seq<Item>, last: Item)
    requires |kept| == n && multiset(kept + dropped) == multiset(items) && last in kept && last.publishedAt == d
    requires forall x :: x in kept ==> x.publishedAt >= d
    requires forall y :: y in dropped ==> y.publishedAt <= d
    ensures CutsAt(items, n, d)
  {
    CountPermuted(items, kept, dropped, Newer(d));
    CountPermuted(items, kept, dropped, Tied(d));
    CountsAddUp(kept, d, "");
    WhereNone(kept, Older(d));
    WhereNone(dropped, Newer(d));
    WhereNone(kept, Tied(d));
  }

  lemma {:induction false} LastKeptIsOldest(sorted: seq<Item>, n: nat)
    requires ByDate(sorted) && 0 < n <= |sorted|
    ensures forall x :: x in sorted[..n] ==> x.publishedAt >= sorted[n - 1].publishedAt
    ensures forall y :: y in sorted[n..] ==> y.publishedAt <= sorted[n - 1].publishedAt
    ensures sorted[n - 1] in sorted[..n]
  {
    assert sorted[..n][n - 1] == sorted[n - 1];
  }

  /** There is such a date: that of the last item a sort keeps. */
  lemma {:induction false} CutDateExists(items: seq<Item>, n: nat) returns (d: int)
    requires 0 < n <= |items|
    ensures CutsAt(items, n, d)
  {
    var sorted := InsertionSorted(items);
    var kept, dropped := sorted[..n], sorted[n..];
    d := sorted[n - 1].publishedAt;
    assert sorted == kept + dropped;
    LastKeptIsOldest(sorted, n);
    LastOfKept(items, n, d, kept, dropped, sorted[n - 1]);
  }

  // ---------------------------------------------------------------------------------------
  // New articles.
  // ---------------------------------------------------------------------------------------

  /** The links are pairwise different and none is stored. */
  ghost predicate AllNew(t: Table, items: seq<Item>) {
    && (forall i, j :: 0 <= i < j < |items| ==> items[i].link != items[j].link)
    && (forall x :: x in items ==> x.link !in t.Urls())
  }

  lemma {:induction false} OneTied(items: seq<Item>, d: int, link: string)
    requires forall i, j :: 0 <= i < j < |items| ==> items[i].link != items[j].link
    ensures Count(items, TiedWith(d, link)) <= 1
  {
    if items != [] {
      var n := |items| - 1;
      OneTied(items[..n], d, link);
      if items[n].link == link {
        WhereNone(items[..n], TiedWith(d, link));
      }
    }
  }

  /** New articles have no harmless tie: each tied item can give its place to another one. */
  lemma {:induction false} NewTieIsHarmful(t: Table, items: seq<Item>, n: nat, d: int)
    requires AllNew(t, items) && 0 < n < |items| && CutsAt(items, n, d) && !LimitSeparates(items, n)
    ensures !HarmlessTies(t, items, n, d)
  {
    var x := SomeWhere(items, Tied(d));
    CountsAddUp(items, d, x.link);
    OneTied(items, d, x.link);
    assert |NotOlder(items, d)| != n;
    assert !HarmlessTie(t, items, n, d, x.link);
  }

  /** For a feed of new articles, saving it again never adds a row exactly when no tie crosses the
      limit: with one, a second sort may keep an article the first one dropped. */
  lemma {:induction false} RepeatsAreIdleExactly(t: Table, feedID: int, items: seq<Item>, maxArticles: int,
                                                 now: int, later: int)
    requires t.Valid() && AllNew(t, items)
    ensures LimitSeparates(items, maxArticles) <==> RepeatsAreIdle(t, feedID, items, maxArticles, now, later)
  {
    if LimitSeparates(items, maxArticles) {
      forall kept, dropped, kept', dropped'
        | IsCut(items, maxArticles, kept, dropped) && IsCut(items, maxArticles, kept', dropped')
        ensures Saved(Saved(t, feedID, kept, now, {}), feedID, kept', later, {}) == Saved(t, feedID, kept, now, {})
      {
        RepeatedSaveChangesNothing(t, feedID, items, maxArticles, kept, dropped, now, kept', dropped', later, {});
      }
    } else {
      var d := CutDateExists(items, maxArticles);
      NewTieIsHarmful(t, items, maxArticles, d);
      RepeatsAreIdleInGeneral(t, feedID, items, maxArticles, d, now, later);
    }
  }

  lemma {:induction false} WhereTwo(x: Item, y: Item, p: Item -> bool)
    ensures Where([x, y], p) == (if p(x) then [x] else []) + (if p(y) then [y] else [])
  {
    assert [x, y][..1] == [x] && [x][..0] == [];
    assert Where([x], p) == Where([], p) + (if p(x) then [x] else []);
  }

  /** Two new articles of one date and a limit of one. */
  lemma {:induction false} TieCanAddRow() returns (items: seq<Item>)
    ensures |items| == 2 && !RepeatsAreIdle(Table(map[], 0), 1, items, 1, 0, 0)
  {
    var x, y := Item("", "u", "", "", "", 5), Item("", "v", "", "", "", 5);
    var t := Table(map[], 0);
    items := [x, y];
    WhereTwo(x, y, Newer(5));
    WhereTwo(x, y, Tied(5));
    WhereTwo(x, y, TiedWith(5, "u"));
    WhereTwo(x, y, TiedOther(5, "u"));
    assert "v"[0] != "u"[0];
    HarmfulAddsRow(t, 1, items, 1, 5, "u", 0, 0);
  }
}
