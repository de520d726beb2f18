/** Paging through unread articles on the Datastore back end: when its cursor and its end of run can
    be trusted, and where it agrees with SQLite. The conditions are about the merged refs and the
    read marks before the call. */
module UnreadPaging {
  import opened Results
  import opened Timeline
  import opened ArticleStore
  import opened Pages
  import opened DatastorePager
  import opened PagingTheorems
  import Cursor
  import SqlitePager

  // ---------------------------------------------------------------------------------------
  // One request.
  // ---------------------------------------------------------------------------------------

  lemma {:induction false} KeepUnreadDescends(refs: seq<Ref>, seenRead: set<int>)
    requires Descending(refs)
    ensures Descending(KeepUnread(refs, true, seenRead))
  {
    if refs != [] {
      var n := |refs| - 1;
      KeepUnreadDescends(refs[..n], seenRead);
      KeepUnreadMembers(refs[..n], true, seenRead);
      forall r | r in KeepUnread(refs[..n], true, seenRead) ensures Before(r, refs[n]) {
        var j :| 0 <= j < n && refs[..n][j] == r;
        assert refs[j] == r;
      }
      Join(KeepUnread(refs[..n], true, seenRead), [refs[n]]);
    }
  }

  /** Cutting the unread refs behind their limit-th one is cutting the window there. */
  lemma {:induction false} CutAtLast(window: seq<Ref>, seenRead: set<int>, limit: nat, w: nat)
    requires Descending(window) && w < |window| && 0 < limit <= |KeepUnread(window, true, seenRead)|
    requires window[w] == KeepUnread(window, true, seenRead)[limit - 1]
    ensures KeepUnread(window[..w + 1], true, seenRead) == KeepUnread(window, true, seenRead)[..limit]
  {
    var kept, front := KeepUnread(window, true, seenRead), KeepUnread(window[..w + 1], true, seenRead);
    assert window == window[..w + 1] + window[w + 1..] && window[..w + 1][..w] == window[..w];
    KeepUnreadSplit(window[..w + 1], window[w + 1..], true, seenRead);
    KeepUnreadMembers(window, true, seenRead);
    assert kept[limit - 1] in kept;
    assert front[|front| - 1] == window[w] && kept[|front| - 1] == front[|front| - 1];
    KeepUnreadDescends(window, seenRead);
    assert |front| == limit;
  }

  function UnreadAnswer(refs: seq<Ref>, limit: nat, seenRead: set<int>, start: nat): Answer
    requires start <= |refs|
  {
    var page := PageRefs(refs[start..], limit, true, seenRead);
    Answer(page, NextRef(refs[start..], limit, true, page))
  }

  /** An answer without a position shows the unread refs of its whole candidate window. */
  lemma {:induction false} LastUnreadAnswer(remaining: seq<Ref>, limit: nat, seenRead: set<int>)
    requires limit > 0 && Descending(remaining)
    requires NextRef(remaining, limit, true, PageRefs(remaining, limit, true, seenRead)).None?
    ensures PageRefs(remaining, limit, true, seenRead)
      == KeepUnread(remaining[..CandidateCount(|remaining|, limit, true)], true, seenRead)
  {
    KeepUnreadMembers(remaining[..CandidateCount(|remaining|, limit, true)], true, seenRead);
  }

  /** An answer with a position shows the unread refs up to that position. */
  lemma {:induction false} FullUnreadAnswer(remaining: seq<Ref>, limit: nat, seenRead: set<int>) returns (w: nat)
    requires limit > 0 && Descending(remaining)
    requires NextRef(remaining, limit, true, PageRefs(remaining, limit, true, seenRead)).Some?
    ensures w < CandidateCount(|remaining|, limit, true)
    ensures PageRefs(remaining, limit, true, seenRead) == KeepUnread(remaining[..w + 1], true, seenRead)
    ensures NextRef(remaining, limit, true, PageRefs(remaining, limit, true, seenRead)).value == remaining[w]
    ensures |PageRefs(remaining, limit, true, seenRead)| == limit && remaining[w].id !in seenRead
  {
    var window := remaining[..CandidateCount(|remaining|, limit, true)];
    var kept := KeepUnread(window, true, seenRead);
    KeepUnreadMembers(window, true, seenRead);
    assert kept[limit - 1] in window;
    w :| 0 <= w < |window| && window[w] == kept[limit - 1];
    CutAtLast(window, seenRead, limit, w);
    assert window[..w + 1] == remaining[..w + 1];
  }

  /** The unread refs number exactly one page, the last of them is the oldest ref, and the candidate
      window holds them all together with some read one. */
  predicate EndsOnOldest(remaining: seq<Ref>, limit: nat, seenRead: set<int>) {
    && limit < |remaining| <= CapAtFeedMax(limit * 2)
    && remaining[|remaining| - 1].id !in seenRead
    && |KeepUnread(remaining, true, seenRead)| == limit
  }

  /** Exactly then the position given is that of the oldest ref. */
  lemma {:induction false} PositionOnOldestExactly(remaining: seq<Ref>, limit: nat, seenRead: set<int>)
    requires limit > 0 && Descending(remaining)
    ensures EndsOnOldest(remaining, limit, seenRead)
       <==> (remaining != []
             && NextRef(remaining, limit, true, PageRefs(remaining, limit, true, seenRead))
                == Some(remaining[|remaining| - 1]))
  {
    var n := |remaining|;
    if EndsOnOldest(remaining, limit, seenRead) {
      assert remaining[..n] == remaining;
    }
    if NextRef(remaining, limit, true, PageRefs(remaining, limit, true, seenRead)).Some? {
      var w := FullUnreadAnswer(remaining, limit, seenRead);
      if w == n - 1 {
        assert remaining[..w + 1] == remaining;
      }
    }
  }

  lemma {:induction false} RefsBehind(refs: seq<Ref>, p: nat, from: nat)
    requires Descending(refs) && p < |refs| && from == (if p + 1 < |refs| then p + 1 else 0)
    ensures (forall r :: r in refs[from..] ==> Before(refs[p], r)) <==> refs[p] != refs[|refs| - 1]
  {
    if p + 1 == |refs| {
      assert refs[from..] == refs;
      assert refs[p] in refs && !Before(refs[p], refs[p]);
    } else {
      assert Before(refs[p], refs[|refs| - 1]);
      forall r | r in refs[from..] ensures Before(refs[p], r) {
        var i :| 0 <= i < |refs[from..]| && refs[from..][i] == r;
        assert r == refs[from + i];
      }
    }
  }

  /** A position resumes behind its page, whenever one is given, exactly if the page does not end on
      the oldest merged ref in this way. If it does, the next request starts over at index 0. */
  lemma {:induction false} UnreadCursorResumes(refs: seq<Ref>, start: nat, limit: nat, seenRead: set<int>)
    requires limit > 0 && Descending(refs) && start <= |refs|
    ensures var next := UnreadAnswer(refs, limit, seenRead, start).next;
      && ((next.Some? ==> forall r :: r in refs[StartIndex(refs, next)..] ==> Before(next.value, r))
           <==> !EndsOnOldest(refs[start..], limit, seenRead))
      && (EndsOnOldest(refs[start..], limit, seenRead) ==>
            next == Some(refs[|refs| - 1]) && StartIndex(refs, next) == 0)
  {
    var remaining := refs[start..];
    PositionOnOldestExactly(remaining, limit, seenRead);
    if UnreadAnswer(refs, limit, seenRead, start).next.Some? {
      var w := FullUnreadAnswer(remaining, limit, seenRead);
      assert remaining[w] == refs[start + w] && remaining[|remaining| - 1] == refs[|refs| - 1];
      PositionLeadsTo(refs, start + w);
      RefsBehind(refs, start + w, if start + w + 1 < |refs| then start + w + 1 else 0);
    }
  }

  /** The failing family is not empty: one read article, an older unread one, limit 1. The page
      shows the unread article and a next position, and the next request shows it again. */
  lemma {:induction false} UnreadRunCanRepeat()
    ensures var refs := [Ref(2, 20), Ref(1, 10)];
      var page := PageRefs(refs, 1, true, {2});
      var next := NextRef(refs, 1, true, page);
      && page == [Ref(1, 10)] && next.Some?
      && PageRefs(refs[StartIndex(refs, next)..], 1, true, {2}) == page
  {
    var refs := [Ref(2, 20), Ref(1, 10)];
    assert Candidates(refs, 1, true) == refs;
    assert refs[..1] == [Ref(2, 20)] && refs[..1][..0] == [];
    assert KeepUnread(refs[..1], true, {2}) == [];
    assert KeepUnread(refs, true, {2}) == [Ref(1, 10)];
    PositionLeadsTo(refs, 1);
    assert refs[0..] == refs;
  }

  /** The candidate window holds a full page of unread refs, or all of them. */
  predicate WindowSuffices(remaining: seq<Ref>, limit: nat, seenRead: set<int>) {
    var n := CandidateCount(|remaining|, limit, true);
    |KeepUnread(remaining[..n], true, seenRead)| >= limit || forall r :: r in remaining[n..] ==> r.id in seenRead
  }

  /** Some unread ref is missing from the answer, although it gives no position to go on from. */
  ghost predicate EndsEarly(remaining: seq<Ref>, limit: nat, seenRead: set<int>) {
    var page := PageRefs(remaining, limit, true, seenRead);
    && NextRef(remaining, limit, true, page).None?
    && exists r :: r in remaining && r.id !in seenRead && r !in page
  }

  /** A run ends early exactly when the window holds less than a page and something unread lies
      behind it. */
  lemma {:induction false} UnreadEndsEarlyExactly(remaining: seq<Ref>, limit: nat, seenRead: set<int>)
    requires limit > 0 && Descending(remaining)
    ensures EndsEarly(remaining, limit, seenRead) <==> !WindowSuffices(remaining, limit, seenRead)
  {
    var n := CandidateCount(|remaining|, limit, true);
    var window, behind := remaining[..n], remaining[n..];
    var page := PageRefs(remaining, limit, true, seenRead);
    KeepUnreadMembers(window, true, seenRead);
    assert remaining == window + behind;
    if |KeepUnread(window, true, seenRead)| < limit {
      assert page == KeepUnread(window, true, seenRead);
      forall r | r in behind ensures r !in window && r in remaining {
        var j :| 0 <= j < |behind| && behind[j] == r;
        assert remaining[n + j] == r;
      }
    } else if NextRef(remaining, limit, true, page).None? {
      assert window == remaining && |window| == limit;
      assert page == KeepUnread(window, true, seenRead);
    }
  }

  lemma {:induction false} NothingKept(refs: seq<Ref>, seenRead: set<int>)
    ensures KeepUnread(refs, true, seenRead) == [] <==> forall r :: r in refs ==> r.id in seenRead
  {
    KeepUnreadMembers(refs, true, seenRead);
    if KeepUnread(refs, true, seenRead) != [] {
      assert KeepUnread(refs, true, seenRead)[0] in KeepUnread(refs, true, seenRead);
    }
  }

  /** Two read articles fill the window of a page of one: the unread article behind them is missed. */
  lemma {:induction false} UnreadCanEndEarly()
    ensures EndsEarly([Ref(3, 30), Ref(2, 20), Ref(1, 10)], 1, {2, 3})
  {
    var refs := [Ref(3, 30), Ref(2, 20), Ref(1, 10)];
    assert refs[2..] == [Ref(1, 10)] && Ref(1, 10) in refs[2..];
    var window := refs[..2];
    KeepUnreadMembers(window, true, {2, 3});
    assert window == [Ref(3, 30), Ref(2, 20)];
    NothingKept(window, {2, 3});
    UnreadEndsEarlyExactly(refs, 1, {2, 3});
  }

  // ---------------------------------------------------------------------------------------
  // Stretches: what one answer covers.
  // ---------------------------------------------------------------------------------------

  /** refs[start..end] holds one page of unread refs and ends with one. */
  ghost predicate FullStretch(refs: seq<Ref>, limit: nat, seenRead: set<int>, start: nat, end: nat) {
    && start < end <= |refs| && refs[end - 1].id !in seenRead
    && |KeepUnread(refs[start..end], true, seenRead)| == limit
  }

  /** One unread answer shows exactly the unread refs of a stretch refs[start..end], and its
      position, if any, is the last ref of the stretch. */
  lemma {:induction false} UnreadAnswerCoversStretch(refs: seq<Ref>, limit: nat, seenRead: set<int>,
                                                     start: nat) returns (end: nat)
    requires limit > 0 && Descending(refs) && start <= |refs|
    ensures var a := UnreadAnswer(refs, limit, seenRead, start);
      && start <= end <= |refs|
      && a.refs == KeepUnread(refs[start..end], true, seenRead)
      && (a.next.Some? ==> FullStretch(refs, limit, seenRead, start, end) && a.next.value == refs[end - 1])
      && (a.next.None? ==> end == start + CandidateCount(|refs| - start, limit, true))
  {
    var remaining := refs[start..];
    if UnreadAnswer(refs, limit, seenRead, start).next.Some? {
      var w := FullUnreadAnswer(remaining, limit, seenRead);
      end := start + w + 1;
    } else {
      LastUnreadAnswer(remaining, limit, seenRead);
      end := start + CandidateCount(|remaining|, limit, true);
    }
    assert remaining[..end - start] == refs[start..end];
  }

  lemma {:induction false} StretchesJoin(refs: seq<Ref>, seenRead: set<int>, start: nat, mid: nat, end: nat)
    requires start <= mid <= end <= |refs|
    ensures KeepUnread(refs[start..mid], true, seenRead) + KeepUnread(refs[mid..end], true, seenRead)
         == KeepUnread(refs[start..end], true, seenRead)
  {
    KeepUnreadSplit(refs[start..mid], refs[mid..end], true, seenRead);
    assert refs[start..mid] + refs[mid..end] == refs[start..end];
  }

  // ---------------------------------------------------------------------------------------
  // Runs.
  // ---------------------------------------------------------------------------------------

  /** A client following unread positions. */
  ghost predicate IsUnreadRun(refs: seq<Ref>, limit: nat, seenRead: set<int>, start: nat, answers: seq<Answer>)
    decreases |answers|
  {
    && answers != [] && start <= |refs|
    && answers[0] == UnreadAnswer(refs, limit, seenRead, start)
    && (|answers| > 1 ==>
          && answers[0].next.Some?
          && IsUnreadRun(refs, limit, seenRead, StartIndex(refs, answers[0].next), answers[1..]))
  }

  predicate Finished(answers: seq<Answer>) {
    answers != [] && answers[|answers| - 1].next.None?
  }

  predicate MultipleOf(n: nat, limit: nat)
    requires limit > 0
  {
    n == 0 || (n >= limit && MultipleOf(n - limit, limit))
  }

  /** Where pages begin when they are filled one after another from `from` on: there, and behind
      every limit-th unread ref. */
  predicate PageStart(refs: seq<Ref>, limit: nat, seenRead: set<int>, from: nat, s: nat)
    requires limit > 0
  {
    && from <= s <= |refs|
    && (s == from ||
        (refs[s - 1].id !in seenRead && MultipleOf(|KeepUnread(refs[from..s], true, seenRead)|, limit)))
  }

  ghost predicate NeverRestarts(refs: seq<Ref>, limit: nat, seenRead: set<int>, from: nat)
    requires limit > 0
  {
    forall s: nat :: PageStart(refs, limit, seenRead, from, s) ==> !EndsOnOldest(refs[s..], limit, seenRead)
  }

  ghost predicate AlwaysSuffices(refs: seq<Ref>, limit: nat, seenRead: set<int>, from: nat)
    requires limit > 0
  {
    forall s: nat :: PageStart(refs, limit, seenRead, from, s) ==> WindowSuffices(refs[s..], limit, seenRead)
  }

  /** A stretch that ends with an unread ref holds one. */
  lemma {:induction false} KeepUnreadCounts(refs: seq<Ref>, seenRead: set<int>, from: nat, to: nat)
    requires from < to <= |refs| && refs[to - 1].id !in seenRead
    ensures |KeepUnread(refs[from..to], true, seenRead)| > 0
  {
    assert refs[from..to][to - from - 1] == refs[to - 1];
  }

  /** Behind a full stretch, the page starts are those counted from its end. */
  lemma {:induction false} PageStartsShift(refs: seq<Ref>, limit: nat, seenRead: set<int>, from: nat, e: nat, s: nat)
    requires limit > 0 && FullStretch(refs, limit, seenRead, from, e)
    ensures from < s < e ==> !PageStart(refs, limit, seenRead, from, s)
    ensures e <= s ==> (PageStart(refs, limit, seenRead, from, s) <==> PageStart(refs, limit, seenRead, e, s))
  {
    if from < s < e && refs[s - 1].id !in seenRead {
      StretchesJoin(refs, seenRead, from, s, e);
      KeepUnreadCounts(refs, seenRead, s, e);
      KeepUnreadCounts(refs, seenRead, from, s);
    } else if e <= s <= |refs| {
      StretchesJoin(refs, seenRead, from, e, s);
      assert refs[e..e] == [];
      var k := |KeepUnread(refs[e..s], true, seenRead)|;
      assert |KeepUnread(refs[from..s], true, seenRead)| == limit + k;
      assert MultipleOf(limit + k, limit) <==> MultipleOf(k, limit);
    }
  }

  lemma {:induction false} PageStartsSplit(refs: seq<Ref>, limit: nat, seenRead: set<int>, from: nat, e: nat)
    requires limit > 0 && FullStretch(refs, limit, seenRead, from, e)
    ensures NeverRestarts(refs, limit, seenRead, from)
       <==> !EndsOnOldest(refs[from..], limit, seenRead) && NeverRestarts(refs, limit, seenRead, e)
    ensures AlwaysSuffices(refs, limit, seenRead, from)
       <==> WindowSuffices(refs[from..], limit, seenRead) && AlwaysSuffices(refs, limit, seenRead, e)
  {
    forall s: nat
      ensures PageStart(refs, limit, seenRead, from, s) <==> s == from || PageStart(refs, limit, seenRead, e, s)
    {
      PageStartsShift(refs, limit, seenRead, from, e, s);
    }
  }

  /** After the last page only the very end can be a page start: the page was full to the end. */
  lemma {:induction false} LastPageStart(refs: seq<Ref>, limit: nat, seenRead: set<int>, from: nat, s: nat)
    requires limit > 0 && Descending(refs) && from <= |refs|
    requires UnreadAnswer(refs, limit, seenRead, from).next.None? && WindowSuffices(refs[from..], limit, seenRead)
    requires PageStart(refs, limit, seenRead, from, s) && s != from
    ensures s == |refs|
  {
    var remaining := refs[from..];
    var n := CandidateCount(|remaining|, limit, true);
    KeepUnreadCounts(refs, seenRead, from, s);
    StretchesJoin(refs, seenRead, from, s, |refs|);
    assert refs[from..|refs|] == remaining && remaining == remaining[..n] + remaining[n..];
    KeepUnreadSplit(remaining[..n], remaining[n..], true, seenRead);
    KeepUnreadMembers(remaining[..n], true, seenRead);
    KeepUnreadMembers(refs[from..s], true, seenRead);
    if |KeepUnread(remaining[..n], true, seenRead)| < limit {
      NothingKept(remaining[n..], seenRead);
    }
  }

  /** Without a position and with nothing missed, no page start lies ahead that could go wrong. */
  lemma {:induction false} LastPageIsSound(refs: seq<Ref>, limit: nat, seenRead: set<int>, from: nat)
    requires limit > 0 && Descending(refs) && from <= |refs|
    requires UnreadAnswer(refs, limit, seenRead, from).next.None? && WindowSuffices(refs[from..], limit, seenRead)
    ensures NeverRestarts(refs, limit, seenRead, from) && AlwaysSuffices(refs, limit, seenRead, from)
  {
    PositionOnOldestExactly(refs[from..], limit, seenRead);
    forall s: nat | PageStart(refs, limit, seenRead, from, s) && s != from ensures s == |refs| {
      LastPageStart(refs, limit, seenRead, from, s);
    }
    assert refs[|refs|..] == [];
  }

  /** What a last answer shows is all that was left exactly when its window suffices. */
  lemma {:induction false} LastAnswerIsAll(refs: seq<Ref>, limit: nat, seenRead: set<int>, from: nat)
    requires limit > 0 && Descending(refs) && from <= |refs|
    requires UnreadAnswer(refs, limit, seenRead, from).next.None?
    ensures UnreadAnswer(refs, limit, seenRead, from).refs == KeepUnread(refs[from..], true, seenRead)
       <==> WindowSuffices(refs[from..], limit, seenRead)
  {
    var remaining := refs[from..];
    var n := CandidateCount(|remaining|, limit, true);
    LastUnreadAnswer(remaining, limit, seenRead);
    assert remaining == remaining[..n] + remaining[n..];
    KeepUnreadSplit(remaining[..n], remaining[n..], true, seenRead);
    KeepUnreadMembers(remaining[..n], true, seenRead);
    NothingKept(remaining[n..], seenRead);
  }

  /** Away from restarts, an answer with a position is followed by the answer for the next stretch. */
  lemma {:induction false} NextStretch(refs: seq<Ref>, limit: nat, seenRead: set<int>, from: nat) returns (e: nat)
    requires limit > 0 && Descending(refs) && from <= |refs|
    requires UnreadAnswer(refs, limit, seenRead, from).next.Some?
    ensures FullStretch(refs, limit, seenRead, from, e)
    ensures UnreadAnswer(refs, limit, seenRead, from).refs == KeepUnread(refs[from..e], true, seenRead)
    ensures !EndsOnOldest(refs[from..], limit, seenRead) ==>
      e < |refs| && StartIndex(refs, UnreadAnswer(refs, limit, seenRead, from).next) == e
    ensures EndsOnOldest(refs[from..], limit, seenRead) ==>
      StartIndex(refs, UnreadAnswer(refs, limit, seenRead, from).next) == 0
  {
    e := UnreadAnswerCoversStretch(refs, limit, seenRead, from);
    PositionOnOldestExactly(refs[from..], limit, seenRead);
    assert refs[from..][|refs| - from - 1] == refs[|refs| - 1];
    PositionLeadsTo(refs, e - 1);
  }

  /** The unread refs from `from` on are those of a stretch followed by those behind it. */
  lemma {:induction false} StretchThenRest(refs: seq<Ref>, seenRead: set<int>, from: nat, e: nat, tail: seq<Ref>)
    requires from <= e <= |refs|
    ensures KeepUnread(refs[from..e], true, seenRead) + tail == KeepUnread(refs[from..], true, seenRead)
       <==> tail == KeepUnread(refs[e..], true, seenRead)
  {
    var head, rest := KeepUnread(refs[from..e], true, seenRead), KeepUnread(refs[e..], true, seenRead);
    StretchesJoin(refs, seenRead, from, e, |refs|);
    assert refs[from..|refs|] == refs[from..] && refs[e..|refs|] == refs[e..];
    assert (head + tail)[|head|..] == tail && (head + rest)[|head|..] == rest;
  }

  lemma {:induction false} FullWindowSuffices(refs: seq<Ref>, limit: nat, seenRead: set<int>, from: nat)
    requires limit > 0 && from <= |refs| && UnreadAnswer(refs, limit, seenRead, from).next.Some?
    ensures WindowSuffices(refs[from..], limit, seenRead)
  {
  }

  /** The first answer of a longer run that does not start over, and the run behind it. */
  lemma {:induction false} RunStep(refs: seq<Ref>, limit: nat, seenRead: set<int>, from: nat, answers: seq<Answer>)
    returns (e: nat)
    requires limit > 0 && Descending(refs) && IsUnreadRun(refs, limit, seenRead, from, answers) && |answers| > 1
    requires !EndsOnOldest(refs[from..], limit, seenRead)
    ensures FullStretch(refs, limit, seenRead, from, e) && IsUnreadRun(refs, limit, seenRead, e, answers[1..])
    ensures WindowSuffices(refs[from..], limit, seenRead)
    ensures Delivered(answers) == KeepUnread(refs[from..e], true, seenRead) + Delivered(answers[1..])
  {
    e := NextStretch(refs, limit, seenRead, from);
    FullWindowSuffices(refs, limit, seenRead, from);
  }

  /** Filled pages of a listing on which no page start goes wrong: a finished run that shows
      everything unread. */
  lemma {:induction false} CompleteRun(refs: seq<Ref>, limit: nat, seenRead: set<int>, from: nat)
    returns (answers: seq<Answer>)
    requires limit > 0 && Descending(refs) && from <= |refs|
    requires NeverRestarts(refs, limit, seenRead, from) && AlwaysSuffices(refs, limit, seenRead, from)
    ensures IsUnreadRun(refs, limit, seenRead, from, answers) && Finished(answers)
    ensures Delivered(answers) == KeepUnread(refs[from..], true, seenRead)
    decreases |refs| - from
  {
    var a := UnreadAnswer(refs, limit, seenRead, from);
    assert PageStart(refs, limit, seenRead, from, from);
    if a.next.None? {
      LastAnswerIsAll(refs, limit, seenRead, from);
      answers := [a];
      assert answers[1..] == [];
    } else {
      var e := NextStretch(refs, limit, seenRead, from);
      PageStartsSplit(refs, limit, seenRead, from, e);
      var rest := CompleteRun(refs, limit, seenRead, e);
      answers := [a] + rest;
      assert answers[1..] == rest;
      StretchThenRest(refs, seenRead, from, e, Delivered(rest));
    }
  }

  /** A run is determined by where it starts. */
  lemma {:induction false} SameRun(refs: seq<Ref>, limit: nat, seenRead: set<int>, start: nat,
                                   a: seq<Answer>, b: seq<Answer>)
    requires IsUnreadRun(refs, limit, seenRead, start, a) && IsUnreadRun(refs, limit, seenRead, start, b)
    requires Finished(a) && Finished(b)
    ensures a == b
    decreases |a|
  {
    if |a| > 1 && |b| > 1 {
      SameRun(refs, limit, seenRead, StartIndex(refs, a[0].next), a[1..], b[1..]);
      assert a == [a[0]] + a[1..] && b == [b[0]] + b[1..];
    }
  }

  /** A finished run from the first page never starts over: it would not end. */
  lemma {:induction false} FinishedDoesNotRestart(refs: seq<Ref>, limit: nat, seenRead: set<int>, from: nat,
                                                  answers: seq<Answer>, whole: seq<Answer>)
    requires limit > 0 && Descending(refs)
    requires IsUnreadRun(refs, limit, seenRead, from, answers) && Finished(answers)
    requires IsUnreadRun(refs, limit, seenRead, 0, whole) && Finished(whole) && |answers| <= |whole|
    ensures !EndsOnOldest(refs[from..], limit, seenRead)
  {
    UnreadCursorResumes(refs, from, limit, seenRead);
    if EndsOnOldest(refs[from..], limit, seenRead) {
      SameRun(refs, limit, seenRead, 0, answers[1..], whole);
    }
  }

  /** A finished run that shows everything unread proves that no page start goes wrong. */
  lemma {:induction false} CompleteRunIsSound(refs: seq<Ref>, limit: nat, seenRead: set<int>, from: nat,
                                              answers: seq<Answer>, whole: seq<Answer>)
    requires limit > 0 && Descending(refs)
    requires IsUnreadRun(refs, limit, seenRead, from, answers) && Finished(answers)
    requires Delivered(answers) == KeepUnread(refs[from..], true, seenRead)
    requires IsUnreadRun(refs, limit, seenRead, 0, whole) && Finished(whole) && |answers| <= |whole|
    ensures NeverRestarts(refs, limit, seenRead, from) && AlwaysSuffices(refs, limit, seenRead, from)
    decreases |answers|
  {
    FinishedDoesNotRestart(refs, limit, seenRead, from, answers, whole);
    if |answers| == 1 {
      assert answers[1..] == [];
      LastAnswerIsAll(refs, limit, seenRead, from);
      LastPageIsSound(refs, limit, seenRead, from);
    } else {
      var e := RunStep(refs, limit, seenRead, from, answers);
      StretchThenRest(refs, seenRead, from, e, Delivered(answers[1..]));
      CompleteRunIsSound(refs, limit, seenRead, e, answers[1..], whole);
      PageStartsSplit(refs, limit, seenRead, from, e);
    }
  }

  /** When unread paging from the first page works: some run finishes having shown exactly the unread
      refs of the merged listing, each once and in order, if and only if at every page start the
      window suffices and the page does not end on the oldest ref. */
  lemma {:induction false} UnreadPagingWorksExactly(refs: seq<Ref>, limit: nat, seenRead: set<int>)
    requires limit > 0 && Descending(refs)
    ensures (exists answers ::
               && IsUnreadRun(refs, limit, seenRead, 0, answers) && Finished(answers)
               && Delivered(answers) == KeepUnread(refs, true, seenRead))
       <==> NeverRestarts(refs, limit, seenRead, 0) && AlwaysSuffices(refs, limit, seenRead, 0)
  {
    assert refs[0..] == refs;
    if NeverRestarts(refs, limit, seenRead, 0) && AlwaysSuffices(refs, limit, seenRead, 0) {
      var answers := CompleteRun(refs, limit, seenRead, 0);
    }
    if answers :| IsUnreadRun(refs, limit, seenRead, 0, answers) && Finished(answers)
                  && Delivered(answers) == KeepUnread(refs, true, seenRead) {
      CompleteRunIsSound(refs, limit, seenRead, 0, answers, answers);
    }
  }

  /** Where a run that does not start over has got to: `last` is where its last answer starts, `end`
      where it ends. */
  ghost predicate Covers(refs: seq<Ref>, limit: nat, seenRead: set<int>, start: nat, answers: seq<Answer>,
                         last: nat, end: nat)
    requires answers != []
  {
    var a := answers[|answers| - 1];
    && start <= last <= end <= |refs| && a == UnreadAnswer(refs, limit, seenRead, last)
    && Delivered(answers) == KeepUnread(refs[start..end], true, seenRead)
    && (a.next.Some? ==> end > last && a.next.value == refs[end - 1])
    && (a.next.None? ==> end == last + CandidateCount(|refs| - last, limit, true))
  }

  lemma {:induction false} CoversStep(refs: seq<Ref>, limit: nat, seenRead: set<int>, start: nat, mid: nat,
                                      answers: seq<Answer>, last: nat, end: nat)
    requires |answers| > 1 && start <= mid && Covers(refs, limit, seenRead, mid, answers[1..], last, end)
    requires Delivered(answers) == KeepUnread(refs[start..mid], true, seenRead) + Delivered(answers[1..])
    ensures Covers(refs, limit, seenRead, start, answers, last, end)
  {
    StretchesJoin(refs, seenRead, start, mid, end);
  }

  /** Unless a page start ends on the oldest merged ref, the pages of a run from any position are
      together the unread refs of one stretch, nothing repeated and nothing skipped. The stretch ends
      at the position last given, or with the last window; a finished run has shown everything unread
      from its start on exactly when its last window suffices. */
  lemma {:induction false} UnreadRunIsExact(refs: seq<Ref>, limit: nat, seenRead: set<int>, start: nat,
                                            answers: seq<Answer>)
    returns (last: nat, end: nat)
    requires limit > 0 && Descending(refs) && IsUnreadRun(refs, limit, seenRead, start, answers)
    requires NeverRestarts(refs, limit, seenRead, start)
    ensures Covers(refs, limit, seenRead, start, answers, last, end)
    ensures Finished(answers) ==>
      (Delivered(answers) == KeepUnread(refs[start..], true, seenRead)
       <==> WindowSuffices(refs[last..], limit, seenRead))
    decreases |answers|
  {
    assert PageStart(refs, limit, seenRead, start, start);
    if |answers| == 1 {
      last := start;
      end := UnreadAnswerCoversStretch(refs, limit, seenRead, start);
      assert answers[1..] == [];
      if Finished(answers) {
        LastAnswerIsAll(refs, limit, seenRead, start);
      }
    } else {
      var mid := RunStep(refs, limit, seenRead, start, answers);
      PageStartsSplit(refs, limit, seenRead, start, mid);
      last, end := UnreadRunIsExact(refs, limit, seenRead, mid, answers[1..]);
      CoversStep(refs, limit, seenRead, start, mid, answers, last, end);
      StretchThenRest(refs, seenRead, start, mid, Delivered(answers[1..]));
    }
  }

  // ---------------------------------------------------------------------------------------
  // The pages and cursor texts a client really sees.
  // ---------------------------------------------------------------------------------------

  /** The articles the user has read. */
  function ReadIds(st: Store, userID: int): set<int> {
    set id | id in st.articles && st.IsRead(userID, id)
  }

  lemma {:induction false} SameFilter(refs: seq<Ref>, a: set<int>, b: set<int>)
    requires forall r :: r in refs ==> (r.id in a <==> r.id in b)
    ensures KeepUnread(refs, true, a) == KeepUnread(refs, true, b)
  {
    if refs != [] {
      var n := |refs| - 1;
      assert refs == refs[..n] + [refs[n]] && refs[n] in refs;
      SameFilter(refs[..n], a, b);
    }
  }

  lemma {:induction false} SeenInWindow(st: Store, userID: int, window: seq<Ref>)
    requires forall r :: r in window ==> r.id in st.articles
    ensures KeepUnread(window, true, SeenRead(st, userID, window, {})) == KeepUnread(window, true, ReadIds(st, userID))
  {
    forall r | r in window ensures r.id in SeenRead(st, userID, window, {}) <==> r.id in ReadIds(st, userID) {
    }
    SameFilter(window, SeenRead(st, userID, window, {}), ReadIds(st, userID));
  }

  /** Every ref is stored and fits a cursor. */
  ghost predicate Usable(st: Store, refs: seq<Ref>) {
    forall r :: r in refs ==> r.id in st.articles && Cursor.Encodable(r)
  }

  lemma {:induction false} UnreadPageRefs(st: Store, q: Query, remaining: seq<Ref>, p: Page)
    requires q.unreadOnly && (forall r :: r in remaining ==> r.id in st.articles)
    requires Shows(st, q, remaining, NO_FAULTS, p)
    ensures var page := PageRefs(remaining, q.limit, true, ReadIds(st, q.userID));
      && p.Refs() == page && ShowsRefs(st, q.userID, page, NO_FAULTS, p)
      && p.nextCursor == CursorFor(NextRef(remaining, q.limit, true, page))
  {
    var window := Candidates(remaining, q.limit, true);
    SeenInWindow(st, q.userID, window);
    KeepAll(PageRefs(remaining, q.limit, true, ReadIds(st, q.userID)), true, {});
  }

  lemma {:induction false} PositionIsMerged(refs: seq<Ref>, limit: nat, seenRead: set<int>, start: nat)
    requires start <= |refs|
    ensures var next := UnreadAnswer(refs, limit, seenRead, start).next; next.Some? ==> next.value in refs
  {
    var next := UnreadAnswer(refs, limit, seenRead, start).next;
    if next.Some? {
      var window := Candidates(refs[start..], limit, true);
      KeepUnreadMembers(window, true, seenRead);
      assert next.value in KeepUnread(window, true, seenRead);
      var w :| 0 <= w < |window| && window[w] == next.value;
      assert refs[start + w] == next.value;
    }
  }

  /** A page of unread articles is the answer its cursor text and refs amount to. */
  lemma {:induction false} UnreadPageIsAnswer(st: Store, q: Query, merged: seq<Ref>, start: nat, p: Page)
    requires q.limit > 0 && q.unreadOnly && Usable(st, merged) && start <= |merged|
    requires Shows(st, q, merged[start..], NO_FAULTS, p)
    ensures var a := UnreadAnswer(merged, q.limit, ReadIds(st, q.userID), start);
      && p.Refs() == a.refs && ValidCursor(p.nextCursor) && Position(p.nextCursor) == a.next
      && (p.nextCursor == "" <==> a.next.None?)
  {
    UnreadPageRefs(st, q, merged[start..], p);
    var next := UnreadAnswer(merged, q.limit, ReadIds(st, q.userID), start).next;
    PositionIsMerged(merged, q.limit, ReadIds(st, q.userID), start);
    CursorForPosition(next);
  }

  /** A page in front of a run of pages, and its answer in front of theirs. */
  lemma {:induction false} PageThenUnreadRun(refs: seq<Ref>, limit: nat, seenRead: set<int>, start: nat, a: Answer,
                                             pages: seq<Page>, rest: seq<Answer>)
    requires pages != [] && start <= |refs| && a == UnreadAnswer(refs, limit, seenRead, start)
    requires pages[0].Refs() == a.refs && (pages[0].nextCursor == "" <==> a.next.None?)
    requires |rest| == |pages| - 1 && Delivered(rest) == Seen(pages[1..])
    requires rest != [] ==> a.next.Some? && IsUnreadRun(refs, limit, seenRead, StartIndex(refs, a.next), rest)
    requires rest != [] ==> (Finished(rest) <==> pages[|pages| - 1].nextCursor == "")
    ensures var answers := [a] + rest;
      && IsUnreadRun(refs, limit, seenRead, start, answers) && |answers| == |pages|
      && Delivered(answers) == Seen(pages) && (Finished(answers) <==> pages[|pages| - 1].nextCursor == "")
  {
    assert ([a] + rest)[1..] == rest;
  }

  lemma {:induction false} UnreadRequestAnswers(st: Store, userFeeds: seq<int>, q: Query, cursor: string, p: Page)
    returns (a: Answer)
    requires q.limit > 0 && q.unreadOnly && FeedsAsked(userFeeds, q.feedID) != []
    requires Usable(st, Merged(st, userFeeds, q, {})) && ValidCursor(cursor)
    requires Answers(st, userFeeds, q, cursor, NO_FAULTS, p)
    ensures var merged := Merged(st, userFeeds, q, {});
      && a == UnreadAnswer(merged, q.limit, ReadIds(st, q.userID), StartIndex(merged, Position(cursor)))
      && p.Refs() == a.refs && ValidCursor(p.nextCursor) && Position(p.nextCursor) == a.next
      && (p.nextCursor == "" <==> a.next.None?)
  {
    var merged := Merged(st, userFeeds, q, {});
    var start := StartIndex(merged, Position(cursor));
    UnreadPageIsAnswer(st, q, merged, start, p);
    a := UnreadAnswer(merged, q.limit, ReadIds(st, q.userID), start);
  }

  lemma {:induction false} ClientRunIsUnreadRun(st: Store, userFeeds: seq<int>, q: Query, cursor: string,
                                                pages: seq<Page>)
    returns (answers: seq<Answer>)
    requires q.limit > 0 && q.unreadOnly && FeedsAsked(userFeeds, q.feedID) != []
    requires Usable(st, Merged(st, userFeeds, q, {})) && IsClientRun(st, userFeeds, q, cursor, pages)
    ensures var merged := Merged(st, userFeeds, q, {});
      IsUnreadRun(merged, q.limit, ReadIds(st, q.userID), StartIndex(merged, Position(cursor)), answers)
    ensures |answers| == |pages| && Delivered(answers) == Seen(pages)
    ensures Finished(answers) <==> pages[|pages| - 1].nextCursor == ""
    decreases |pages|
  {
    var merged := Merged(st, userFeeds, q, {});
    var a := UnreadRequestAnswers(st, userFeeds, q, cursor, pages[0]);
    var rest := [];
    if |pages| > 1 {
      rest := ClientRunIsUnreadRun(st, userFeeds, q, pages[0].nextCursor, pages[1..]);
    }
    PageThenUnreadRun(merged, q.limit, ReadIds(st, q.userID), StartIndex(merged, Position(cursor)), a, pages, rest);
    answers := [a] + rest;
  }

  lemma {:induction false} FinishedRunIsComplete(refs: seq<Ref>, limit: nat, seenRead: set<int>, answers: seq<Answer>)
    requires limit > 0 && Descending(refs) && IsUnreadRun(refs, limit, seenRead, 0, answers) && Finished(answers)
    ensures Delivered(answers) == KeepUnread(refs, true, seenRead)
       <==> NeverRestarts(refs, limit, seenRead, 0) && AlwaysSuffices(refs, limit, seenRead, 0)
  {
    assert refs[0..] == refs;
    if NeverRestarts(refs, limit, seenRead, 0) && AlwaysSuffices(refs, limit, seenRead, 0) {
      var complete := CompleteRun(refs, limit, seenRead, 0);
      SameRun(refs, limit, seenRead, 0, answers, complete);
    }
    if Delivered(answers) == KeepUnread(refs, true, seenRead) {
      CompleteRunIsSound(refs, limit, seenRead, 0, answers, answers);
    }
  }

  /** On an unchanged store, a client that asks for unread articles from the first page until no
      cursor is left has seen exactly the unread articles of the merged listing, each once and in
      order, if and only if no page start goes wrong. */
  lemma {:induction false} ClientSeesAllUnreadExactly(st: Store, userFeeds: seq<int>, q: Query, pages: seq<Page>)
    requires q.limit > 0 && q.unreadOnly && FeedsAsked(userFeeds, q.feedID) != [] && Storable(st)
    requires IsClientRun(st, userFeeds, q, "", pages) && pages[|pages| - 1].nextCursor == ""
    ensures var merged := Merged(st, userFeeds, q, {}); var read := ReadIds(st, q.userID);
      Seen(pages) == KeepUnread(merged, true, read)
      <==> NeverRestarts(merged, q.limit, read, 0) && AlwaysSuffices(merged, q.limit, read, 0)
  {
    var merged, read := Merged(st, userFeeds, q, {}), ReadIds(st, q.userID);
    MergedIsStored(st, Answering(FeedsAsked(userFeeds, q.feedID), {}), CapAtFeedMax(q.limit * 2));
    MergedIsEncodable(st, userFeeds, q);
    var answers := ClientRunIsUnreadRun(st, userFeeds, q, "", pages);
    FinishedRunIsComplete(merged, q.limit, read, answers);
  }

  // ---------------------------------------------------------------------------------------
  // Agreement with SQLite.
  // ---------------------------------------------------------------------------------------

  function AllOf(q: Query): Query {
    q.(unreadOnly := false)
  }

  /** What SQLite pages through is the full order without the read articles. */
  lemma {:induction false} UnreadListing(st: Store, q: Query)
    requires q.unreadOnly
    ensures Listing(SqlitePager.Matching(st, q)) == KeepUnread(FullOrder(st, AllOf(q)), true, ReadIds(st, q.userID))
  {
    var full, S := FullOrder(st, AllOf(q)), SqlitePager.Matching(st, q);
    var unread := KeepUnread(full, true, ReadIds(st, q.userID));
    KeepUnreadDescends(full, ReadIds(st, q.userID));
    KeepUnreadMembers(full, true, ReadIds(st, q.userID));
    forall r ensures r in unread <==> r in S {
      if r in unread {
        assert r in SqlitePager.Matching(st, AllOf(q));
        assert SqlitePager.Matches(st, q, r.id);
      }
      if r in S {
        assert SqlitePager.Matches(st, AllOf(q), r.id);
      }
    }
    ListingUnique(unread, Listing(S), S);
  }

  /** The candidate window of the first request is the start of the full order. */
  lemma {:induction false} FirstWindow(full: seq<Ref>, merged: seq<Ref>, limit: nat)
    requires Take(merged, CapAtFeedMax(limit * 2)) == Take(full, CapAtFeedMax(limit * 2)) && |merged| <= |full|
    ensures merged[..CandidateCount(|merged|, limit, true)] == full[..CandidateCount(|full|, limit, true)]
  {
  }

  lemma {:induction false} PrefixOfUnread(full: seq<Ref>, limit: nat, seenRead: set<int>)
    requires Descending(full)
    ensures Take(KeepUnread(full[..CandidateCount(|full|, limit, true)], true, seenRead), limit)
         == Take(KeepUnread(full, true, seenRead), limit)
       <==> WindowSuffices(full, limit, seenRead)
  {
    var n := CandidateCount(|full|, limit, true);
    var front, back := KeepUnread(full[..n], true, seenRead), KeepUnread(full[n..], true, seenRead);
    assert full == full[..n] + full[n..];
    KeepUnreadSplit(full[..n], full[n..], true, seenRead);
    NothingKept(full[n..], seenRead);
    if |front| < limit && back != [] {
      assert |Take(front + back, limit)| > |front|;
    }
  }

  lemma {:induction false} FirstDatastorePage(st: Store, userFeeds: seq<int>, q: Query, d: Page)
    requires q.limit > 0 && q.unreadOnly && ListsSubscriptions(st, q.userID, userFeeds)
    requires FeedsAsked(userFeeds, q.feedID) != [] && Answers(st, userFeeds, q, "", NO_FAULTS, d)
    ensures var full := FullOrder(st, AllOf(q)); var read := ReadIds(st, q.userID);
      d.Refs() == Take(KeepUnread(full[..CandidateCount(|full|, q.limit, true)], true, read), q.limit)
    ensures ShowsRefs(st, q.userID, d.Refs(), NO_FAULTS, d)
  {
    var feeds := Answering(FeedsAsked(userFeeds, q.feedID), {});
    var merged := Merged(st, userFeeds, q, {});
    MatchingIsGlobal(st, userFeeds, AllOf(q));
    MergeIsExactToRank(st, feeds, CapAtFeedMax(q.limit * 2), merged, FullOrder(st, AllOf(q)));
    MergedIsStored(st, feeds, CapAtFeedMax(q.limit * 2));
    assert merged[0..] == merged;
    UnreadPageRefs(st, q, merged, d);
    FirstWindow(FullOrder(st, AllOf(q)), merged, q.limit);
  }

  /** The first unread page has the same rows on both back ends exactly when the Datastore candidate
      window, the newest min(2*limit, 200) articles, holds a full page of unread ones or all of them. */
  lemma {:induction false} FirstUnreadPageAgrees(st: Store, userFeeds: seq<int>, q: Query, p: Page, d: Page)
    requires q.limit > 0 && q.unreadOnly && ListsSubscriptions(st, q.userID, userFeeds)
    requires SqlitePager.IsPage(st, q, "", p) && Answers(st, userFeeds, q, "", NO_FAULTS, d)
    ensures p.articles == d.articles <==> WindowSuffices(FullOrder(st, AllOf(q)), q.limit, ReadIds(st, q.userID))
  {
    var full, read := FullOrder(st, AllOf(q)), ReadIds(st, q.userID);
    UnreadListing(st, q);
    assert p.Refs() == Take(KeepUnread(full, true, read), q.limit);
    MatchingIsGlobal(st, userFeeds, AllOf(q));
    if FeedsAsked(userFeeds, q.feedID) == [] {
      assert full == [];
    } else {
      FirstDatastorePage(st, userFeeds, q, d);
      PrefixOfUnread(full, q.limit, read);
      if p.Refs() == d.Refs() {
        EqualRows(st, q.userID, p.Refs(), p, d);
      }
    }
  }
}
