/** Runs of Datastore requests while the merged listing changes: articles arrive, subscriptions change
    and projections fail between one request and the next. */
module ChangingRuns {
  import opened Results
  import opened Timeline
  import opened Pages
  import opened DatastorePager
  import opened PagingTheorems
  import SqlitePager

  /** The request can go on from the position: some merged ref lies behind it, or none is left at all. */
  predicate Resumes(merged: seq<Ref>, pos: Option<Ref>) {
    pos.Some? && merged != [] ==> exists r :: r in merged && Before(pos.value, r)
  }

  function AnswerAt(merged: seq<Ref>, limit: nat, pos: Option<Ref>): Answer {
    AnswerFromIndex(merged, limit, StartIndex(merged, pos))
  }

  lemma {:induction false} BehindIsSuffix(merged: seq<Ref>, c: Ref)
    requires Descending(merged)
    ensures Listing(Behind(SetOf(merged), Some(c))) == merged[FirstBehind(merged, c)..]
  {
    var k := FirstBehind(merged, c);
    var S := Behind(SetOf(merged), Some(c));
    forall r ensures r in merged[k..] <==> r in S {
      if r in S {
        var j :| 0 <= j < |merged| && merged[j] == r;
        assert merged[k..][j - k] == r;
      }
    }
    ListingUnique(merged[k..], Listing(S), S);
  }

  lemma {:induction false} ResumesAt(merged: seq<Ref>, c: Ref)
    ensures Resumes(merged, Some(c)) <==> merged == [] || FirstBehind(merged, c) < |merged|
  {
    var k := FirstBehind(merged, c);
    if k < |merged| {
      assert merged[k] in merged;
    }
  }

  /** When something lies behind the position, the request starts there. */
  lemma {:induction false} ResumesBehind(merged: seq<Ref>, c: Ref)
    requires Descending(merged) && Resumes(merged, Some(c))
    ensures merged[StartIndex(merged, Some(c))..] == Listing(Behind(SetOf(merged), Some(c)))
  {
    ResumesAt(merged, c);
    BehindIsSuffix(merged, c);
  }

  lemma {:induction false} NothingBehind(merged: seq<Ref>, limit: nat, c: Ref)
    requires limit > 0 && Descending(merged) && !Resumes(merged, Some(c))
    ensures !SqlitePager.IsAnswer(SetOf(merged), Some(c), limit, AnswerAt(merged, limit, Some(c)))
  {
    BehindIsSuffix(merged, c);
    ResumesAt(merged, c);
    AnswerShape(merged, limit, 0);
    assert AnswerAt(merged, limit, Some(c)).refs != [];
  }

  /** Whatever the listing has become, the answer is that of a keyset query over it exactly when the
      request resumes. */
  lemma {:induction false} AnswerIsKeysetExactly(merged: seq<Ref>, limit: nat, pos: Option<Ref>)
    requires limit > 0 && Descending(merged)
    ensures SqlitePager.IsAnswer(SetOf(merged), pos, limit, AnswerAt(merged, limit, pos)) <==> Resumes(merged, pos)
  {
    AnswerShape(merged, limit, StartIndex(merged, pos));
    if pos.None? {
      ListingUnique(merged, Listing(SetOf(merged)), SetOf(merged));
      assert merged[0..] == merged;
    } else if Resumes(merged, pos) {
      ResumesBehind(merged, pos.value);
    } else {
      NothingBehind(merged, limit, pos.value);
    }
  }

  lemma {:induction false} ResumedPageIsBehind(merged: seq<Ref>, limit: nat, c: Ref)
    requires limit > 0 && Descending(merged) && Resumes(merged, Some(c))
    ensures forall r :: r in AnswerAt(merged, limit, Some(c)).refs ==> Before(c, r)
  {
    var start := StartIndex(merged, Some(c));
    AnswerShape(merged, limit, start);
    ResumesBehind(merged, c);
    forall r | r in AnswerAt(merged, limit, Some(c)).refs ensures Before(c, r) {
      assert r in merged[start..];
    }
  }

  /** A page that does not resume shows something that does not lie behind the position. */
  lemma {:induction false} RestartedPage(merged: seq<Ref>, limit: nat, c: Ref) returns (r: Ref)
    requires limit > 0 && Descending(merged) && !Resumes(merged, Some(c))
    ensures r in AnswerAt(merged, limit, Some(c)).refs && !Before(c, r)
    ensures AnswerAt(merged, limit, Some(c)) == AnswerAt(merged, limit, None)
  {
    ResumesAt(merged, c);
    AnswerShape(merged, limit, 0);
    r := merged[0];
    assert r in merged && AnswerAt(merged, limit, Some(c)).refs[0] == r;
  }

  /** The next page lies behind the cursor exactly when the request resumes. Otherwise paging starts
      over at index 0. */
  lemma {:induction false} NextPageLiesBehindExactly(merged: seq<Ref>, limit: nat, c: Ref)
    requires limit > 0 && Descending(merged)
    ensures (forall r :: r in AnswerAt(merged, limit, Some(c)).refs ==> Before(c, r)) <==> Resumes(merged, Some(c))
    ensures !Resumes(merged, Some(c)) ==> AnswerAt(merged, limit, Some(c)) == AnswerAt(merged, limit, None)
  {
    if Resumes(merged, Some(c)) {
      ResumedPageIsBehind(merged, limit, c);
    } else {
      var r := RestartedPage(merged, limit, c);
    }
  }

  // ---------------------------------------------------------------------------------------
  // Runs over any sequence of merged listings.
  // ---------------------------------------------------------------------------------------

  ghost predicate IsChangingRun(listings: seq<seq<Ref>>, limit: nat, pos: Option<Ref>, answers: seq<Answer>) {
    && |listings| == |answers| > 0
    && (forall i :: 0 <= i < |listings| ==> Descending(listings[i]))
    && (forall i :: 0 <= i < |answers| ==>
          answers[i] == AnswerAt(listings[i], limit, SqlitePager.PositionBefore(pos, answers, i)))
    && (forall i :: 0 <= i < |answers| - 1 ==> answers[i].next.Some?)
  }

  ghost predicate AllResume(listings: seq<seq<Ref>>, answers: seq<Answer>)
    requires |listings| == |answers|
  {
    forall i :: 0 <= i < |answers| - 1 ==> Resumes(listings[i + 1], answers[i].next)
  }

  ghost function SetsOf(listings: seq<seq<Ref>>): seq<set<Ref>> {
    seq(|listings|, i requires 0 <= i < |listings| => SetOf(listings[i]))
  }

  /** A run that always resumes is a run of keyset queries over the listings as they change. */
  lemma {:induction false} ResumingRunIsKeysetRun(listings: seq<seq<Ref>>, limit: nat, answers: seq<Answer>)
    requires limit > 0 && IsChangingRun(listings, limit, None, answers) && AllResume(listings, answers)
    ensures SqlitePager.IsRun(SetsOf(listings), limit, None, answers)
  {
    forall i | 0 <= i < |answers|
      ensures SqlitePager.IsAnswer(SetsOf(listings)[i], SqlitePager.PositionBefore(None, answers, i), limit, answers[i])
    {
      var pos := SqlitePager.PositionBefore(None, answers, i);
      assert i > 0 ==> Resumes(listings[i - 1 + 1], answers[i - 1].next);
      AnswerIsKeysetExactly(listings[i], limit, pos);
    }
  }

  lemma {:induction false} ConcatInOrder(head: seq<Ref>, tail: seq<Ref>)
    requires Descending(head + tail)
    ensures Descending(tail) && forall a, b :: a in head && b in tail ==> Before(a, b)
  {
    forall x, y | 0 <= x < y < |tail| ensures Before(tail[x], tail[y]) {
      assert (head + tail)[|head| + x] == tail[x] && (head + tail)[|head| + y] == tail[y];
    }
    forall a, b | a in head && b in tail ensures Before(a, b) {
      var j :| 0 <= j < |head| && head[j] == a;
      var l :| 0 <= l < |tail| && tail[l] == b;
      assert (head + tail)[j] == a && (head + tail)[|head| + l] == b;
    }
  }

  /** Pages delivered in order are in order pairwise. */
  lemma {:induction false} DeliveredInOrder(answers: seq<Answer>, i: nat, a: Ref, b: Ref)
    requires Descending(Delivered(answers)) && i + 1 < |answers| && a in answers[i].refs && b in answers[i + 1].refs
    ensures Before(a, b)
  {
    var tail := answers[1..];
    ConcatInOrder(answers[0].refs, Delivered(tail));
    if i == 0 {
      assert Delivered(tail) == tail[0].refs + Delivered(tail[1..]) && b in tail[0].refs;
    } else {
      DeliveredInOrder(tail, i - 1, a, b);
    }
  }

  lemma {:induction false} PositionIsLast(merged: seq<Ref>, limit: nat, pos: Option<Ref>)
    requires limit > 0
    ensures var a := AnswerAt(merged, limit, pos); a.next.Some? ==> a.next.value in a.refs
  {
    AnswerShape(merged, limit, StartIndex(merged, pos));
    var a := AnswerAt(merged, limit, pos);
    if a.next.Some? {
      assert a.refs[limit - 1] == a.next.value;
    }
  }

  lemma {:induction false} OutOfOrder(answers: seq<Answer>, i: nat, a: Ref, b: Ref)
    requires i + 1 < |answers| && a in answers[i].refs && b in answers[i + 1].refs && !Before(a, b)
    ensures !Descending(Delivered(answers))
  {
    if Descending(Delivered(answers)) {
      DeliveredInOrder(answers, i, a, b);
    }
  }

  lemma {:induction false} RestartBreaksOrder(merged: seq<Ref>, limit: nat, answers: seq<Answer>, i: nat, c: Ref)
    requires limit > 0 && Descending(merged) && !Resumes(merged, Some(c))
    requires i + 1 < |answers| && c in answers[i].refs && answers[i + 1] == AnswerAt(merged, limit, Some(c))
    ensures !Descending(Delivered(answers))
  {
    var r := RestartedPage(merged, limit, c);
    OutOfOrder(answers, i, c, r);
  }

  lemma {:induction false} StepOfRun(listings: seq<seq<Ref>>, limit: nat, answers: seq<Answer>, i: nat)
    requires limit > 0 && IsChangingRun(listings, limit, None, answers) && i + 1 < |answers|
    ensures answers[i].next.Some? && answers[i].next.value in answers[i].refs
    ensures Descending(listings[i + 1]) && answers[i + 1] == AnswerAt(listings[i + 1], limit, answers[i].next)
  {
    PositionIsLast(listings[i], limit, SqlitePager.PositionBefore(None, answers, i));
    assert SqlitePager.PositionBefore(None, answers, i + 1) == answers[i].next;
  }

  lemma {:induction false} ResumingRunDescends(listings: seq<seq<Ref>>, limit: nat, answers: seq<Answer>)
    requires limit > 0 && IsChangingRun(listings, limit, None, answers) && AllResume(listings, answers)
    ensures Descending(Delivered(answers))
  {
    ResumingRunIsKeysetRun(listings, limit, answers);
    SqlitePager.RunIsDescending(SetsOf(listings), limit, None, answers);
  }

  lemma {:induction false} RestartedRunDoesNotDescend(listings: seq<seq<Ref>>, limit: nat, answers: seq<Answer>, i: nat)
    requires limit > 0 && IsChangingRun(listings, limit, None, answers) && i + 1 < |answers|
    requires !Resumes(listings[i + 1], answers[i].next)
    ensures !Descending(Delivered(answers))
  {
    StepOfRun(listings, limit, answers, i);
    RestartBreaksOrder(listings[i + 1], limit, answers, i, answers[i].next.value);
  }

  /** Paging through a changing listing repeats nothing and keeps the order exactly when every request
      resumes. */
  lemma {:induction false} ChangingRunDescendsExactly(listings: seq<seq<Ref>>, limit: nat, answers: seq<Answer>)
    requires limit > 0 && IsChangingRun(listings, limit, None, answers)
    ensures Descending(Delivered(answers)) <==> AllResume(listings, answers)
  {
    if AllResume(listings, answers) {
      ResumingRunDescends(listings, limit, answers);
    } else {
      var i :| 0 <= i < |answers| - 1 && !Resumes(listings[i + 1], answers[i].next);
      RestartedRunDoesNotDescend(listings, limit, answers, i);
    }
  }

  /** A run that always resumes and ends has shown every article that was in the merged listing at each
      of its requests. */
  lemma {:induction false} ChangingRunIsComplete(listings: seq<seq<Ref>>, limit: nat, answers: seq<Answer>, r: Ref)
    requires limit > 0 && IsChangingRun(listings, limit, None, answers) && AllResume(listings, answers)
    requires answers[|answers| - 1].next.None? && forall l :: l in listings ==> r in l
    ensures r in Delivered(answers)
  {
    ResumingRunIsKeysetRun(listings, limit, answers);
    forall S | S in SetsOf(listings) ensures r in S {
      var i :| 0 <= i < |listings| && SetsOf(listings)[i] == S;
      assert listings[i] in listings;
    }
    SqlitePager.RunIsComplete(SetsOf(listings), limit, None, answers, r);
  }

  /** The answers of a request for one article. */
  lemma {:induction false} OneArticle(merged: seq<Ref>, pos: Option<Ref>)
    ensures var start := StartIndex(merged, pos);
      AnswerAt(merged, 1, pos)
        == Answer(Take(merged[start..], 1), if |merged| - start > 1 then Some(merged[start]) else None)
  {
    AnswerShape(merged, 1, StartIndex(merged, pos));
  }

  lemma {:induction false} TwoDelivered(a: Answer, b: Answer)
    ensures Delivered([a, b]) == a.refs + b.refs
  {
    assert [a, b][1..] == [b] && [b][1..] == [];
    assert Delivered([b]) == b.refs + Delivered([]) == b.refs;
  }

  const OLDER: seq<Ref> := [Ref(2, 20), Ref(1, 10)]
  const NEWER: seq<Ref> := [Ref(4, 40), Ref(3, 30)]

  /** Two arrivals can fill a projection of two and leave nothing behind the cursor: with limit 1 the
      second page starts over with an article newer than the first. */
  lemma {:induction false} ArrivalsCanRestart() returns (a: Answer, b: Answer)
    ensures IsChangingRun([OLDER, NEWER], 1, None, [a, b]) && Delivered([a, b]) == [Ref(2, 20), Ref(4, 40)]
    ensures !Descending(Delivered([a, b]))
  {
    var c := Ref(2, 20);
    a, b := AnswerAt(OLDER, 1, None), AnswerAt(NEWER, 1, Some(c));
    OneArticle(OLDER, None);
    ResumesAt(NEWER, c);
    assert StartIndex(NEWER, Some(c)) == 0;
    OneArticle(NEWER, Some(c));
    assert a == Answer([c], Some(c)) && b == Answer([Ref(4, 40)], Some(Ref(4, 40)));
    TwoDelivered(a, b);
    var shown := Delivered([a, b]);
    assert shown == [c, Ref(4, 40)] && !Before(shown[0], shown[1]);
  }

  /** A projection that fails at the second request ends the run without an error, with an article
      unseen. */
  lemma {:induction false} FailedProjectionEndsRun() returns (a: Answer, b: Answer)
    ensures IsChangingRun([OLDER, []], 1, None, [a, b]) && b.next.None? && Delivered([a, b]) == [Ref(2, 20)]
  {
    var c := Ref(2, 20);
    a, b := AnswerAt(OLDER, 1, None), AnswerAt([], 1, Some(c));
    OneArticle(OLDER, None);
    OneArticle([], Some(c));
    assert a == Answer([c], Some(c)) && b == Answer([], None);
    TwoDelivered(a, b);
  }
}
