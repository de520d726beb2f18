/** Inserting articles on Datastore from several refresh workers: each insert queries for its URL and
    then puts a row, without a transaction around the two. */
module ConcurrentInserts {
  import opened ArticleStore
  import opened ArticleSave

  /** An insert in flight, by what it does next. */
  datatype Insert =
    | Querying(a: Article)
    | Putting(a: Article)    // found no row with its URL
    | Finished

  /** What happened, for the record. */
  datatype Event =
    | FoundNone(call: int, url: string)
    | Put(call: int, url: string)

  datatype State = State(table: Table, calls: map<int, Insert>, log: seq<Event>)

  datatype Op =
    | Start(id: int, a: Article)
    | Query(id: int)
    | PutRow(id: int)

  predicate Enabled(s: State, op: Op) {
    match op
    case Start(id, _) => id !in s.calls
    case Query(id) => id in s.calls && s.calls[id].Querying?
    case PutRow(id) => id in s.calls && s.calls[id].Putting?
  }

  function Apply(s: State, op: Op): State
    requires Enabled(s, op)
  {
    match op
    case Start(id, a) => s.(calls := s.calls[id := Querying(a)])
    case Query(id) =>
      var a := s.calls[id].a;
      if a.url in s.table.Urls() then s.(calls := s.calls[id := Finished])
      else s.(calls := s.calls[id := Putting(a)], log := s.log + [FoundNone(id, a.url)])
    case PutRow(id) =>
      var a := s.calls[id].a;
      State(Table(s.table.rows[s.table.nextId := a], s.table.nextId + 1),
            s.calls[id := Finished], s.log + [Put(id, a.url)])
  }

  ghost predicate IsRun(states: seq<State>, ops: seq<Op>) {
    && |states| == |ops| + 1
    && forall k :: 0 <= k < |ops| ==> Enabled(states[k], ops[k]) && states[k + 1] == Apply(states[k], ops[k])
  }

  /** Before the first insert: a table without repeated URLs. */
  ghost predicate Initial(s: State) {
    s.table.Valid() && s.calls == map[] && s.log == []
  }

  ghost predicate PutBetween(log: seq<Event>, from: nat, to: nat, url: string) {
    exists r :: from < r < to && r < |log| && log[r].Put? && log[r].url == url
  }

  /** The insert that queried at q put its row at p, and in between a row with its URL was put. */
  ghost predicate OverlapAt(log: seq<Event>, q: nat, p: nat) {
    && q < p < |log| && log[q].FoundNone? && log[p] == Put(log[q].call, log[q].url)
    && PutBetween(log, q, p, log[q].url)
  }

  /** Two inserts of one URL overlapped. */
  ghost predicate Overlapped(log: seq<Event>) {
    exists q: nat, p: nat :: OverlapAt(log, q, p)
  }

  ghost predicate UniqueUrls(t: Table) {
    forall i, j :: i in t.rows && j in t.rows && t.rows[i].url == t.rows[j].url ==> i == j
  }

  /** Where an insert about to put has queried, and whether its URL has been put since. */
  ghost predicate QueriedAt(s: State, id: int, q: nat) {
    && id in s.calls && s.calls[id].Putting? && q < |s.log| && s.log[q] == FoundNone(id, s.calls[id].a.url)
    && (s.calls[id].a.url in s.table.Urls() <==> PutBetween(s.log, q, |s.log|, s.calls[id].a.url))
  }

  ghost predicate Queried(s: State, id: int) {
    exists q: nat :: QueriedAt(s, id, q)
  }

  /** Every call queries at most once, and not before it has started. */
  ghost predicate QueriesOnce(s: State) {
    && (forall i :: 0 <= i < |s.log| && s.log[i].FoundNone? ==>
          s.log[i].call in s.calls && !s.calls[s.log[i].call].Querying?)
    && (forall i, j :: 0 <= i < j < |s.log| && s.log[i].FoundNone? && s.log[j].FoundNone? ==>
          s.log[i].call != s.log[j].call)
  }

  ghost predicate Inv(s: State) {
    && (forall id :: id in s.table.rows ==> id < s.table.nextId)
    && QueriesOnce(s)
    && (forall id :: id in s.calls && s.calls[id].Putting? ==> Queried(s, id))
    && (UniqueUrls(s.table) <==> !Overlapped(s.log))
  }

  lemma {:induction false} PutBetweenExtends(log: seq<Event>, e: Event, q: nat, url: string)
    requires q < |log|
    ensures PutBetween(log + [e], q, |log| + 1, url) <==> PutBetween(log, q, |log|, url) || e == Put(e.call, url)
  {
    var longer := log + [e];
    if r :| q < r < |log| && log[r].Put? && log[r].url == url {
      assert longer[r] == log[r];
    }
    if e == Put(e.call, url) {
      assert longer[|log|] == e;
    }
    if r :| q < r < |longer| && longer[r].Put? && longer[r].url == url {
      assert r < |log| ==> longer[r] == log[r];
    }
  }

  lemma {:induction false} SamePutBetween(log: seq<Event>, e: Event, q: nat, p: nat, url: string)
    requires p <= |log|
    ensures PutBetween(log + [e], q, p, url) <==> PutBetween(log, q, p, url)
  {
    if r :| q < r < p && r < |log| && log[r].Put? && log[r].url == url {
      assert (log + [e])[r] == log[r];
    }
  }

  /** One more event overlaps only as the put of an insert. */
  lemma {:induction false} OverlappedExtends(log: seq<Event>, e: Event)
    ensures Overlapped(log + [e]) <==> Overlapped(log) || exists q: nat :: OverlapAt(log + [e], q, |log|)
  {
    var longer := log + [e];
    if q: nat, p: nat :| OverlapAt(log, q, p) {
      SamePutBetween(log, e, q, p, log[q].url);
      assert OverlapAt(longer, q, p);
    }
    if q: nat, p: nat :| OverlapAt(longer, q, p) {
      if p < |log| {
        SamePutBetween(log, e, q, p, log[q].url);
        assert OverlapAt(log, q, p);
      }
    }
  }

  lemma {:induction false} StartKeepsInv(s: State, id: int, a: Article)
    requires Inv(s) && Enabled(s, Start(id, a))
    ensures Inv(Apply(s, Start(id, a)))
  {
    var t := Apply(s, Start(id, a));
    forall c | c in t.calls && t.calls[c].Putting? ensures Queried(t, c) {
      var q: nat :| QueriedAt(s, c, q);
      assert QueriedAt(t, c, q);
    }
  }

  lemma {:induction false} QueryKeepsInv(s: State, id: int)
    requires Inv(s) && Enabled(s, Query(id))
    ensures Inv(Apply(s, Query(id)))
  {
    var t := Apply(s, Query(id));
    var url := s.calls[id].a.url;
    if url in s.table.Urls() {
      forall c | c in t.calls && t.calls[c].Putting? ensures Queried(t, c) {
        var q: nat :| QueriedAt(s, c, q);
        assert QueriedAt(t, c, q);
      }
    } else {
      var e := FoundNone(id, url);
      forall c | c in t.calls && t.calls[c].Putting? ensures Queried(t, c) {
        if c == id {
          assert QueriedAt(t, c, |s.log|);
        } else {
          var q: nat :| QueriedAt(s, c, q);
          PutBetweenExtends(s.log, e, q, s.calls[c].a.url);
          assert QueriedAt(t, c, q);
        }
      }
      OverlappedExtends(s.log, e);
      assert t.log[|s.log|] == e;
    }
  }

  /** A put overlaps exactly when its URL is stored already. */
  lemma {:induction false} PutOverlapsExactly(s: State, id: int)
    requires Inv(s) && Enabled(s, PutRow(id))
    ensures var t := Apply(s, PutRow(id));
      (exists q: nat :: OverlapAt(t.log, q, |s.log|)) <==> s.calls[id].a.url in s.table.Urls()
  {
    var t := Apply(s, PutRow(id));
    var url := s.calls[id].a.url;
    var e := Put(id, url);
    var q: nat :| QueriedAt(s, id, q);
    SamePutBetween(s.log, e, q, |s.log|, url);
    assert t.log[q] == s.log[q] && t.log[|s.log|] == e;
    if url in s.table.Urls() {
      assert OverlapAt(t.log, q, |s.log|);
    }
    if q': nat :| OverlapAt(t.log, q', |s.log|) {
      assert t.log[q'] == s.log[q'];
      assert q' == q;
    }
  }

  lemma {:induction false} PutUrls(t: Table, a: Article)
    requires forall id :: id in t.rows ==> id < t.nextId
    ensures var t' := Table(t.rows[t.nextId := a], t.nextId + 1);
      && (forall u :: u in t'.Urls() <==> u in t.Urls() || u == a.url)
      && (UniqueUrls(t') <==> UniqueUrls(t) && a.url !in t.Urls())
  {
    var t' := Table(t.rows[t.nextId := a], t.nextId + 1);
    forall u ensures u in t'.Urls() <==> u in t.Urls() || u == a.url {
      if u in t.Urls() {
        var id :| id in t.rows && t.rows[id].url == u;
        assert t'.rows[id].url == u;
      }
      assert t'.rows[t.nextId].url == a.url;
    }
    if UniqueUrls(t') {
      forall i | i in t.rows ensures t.rows[i].url != a.url {
        assert t'.rows[i] == t.rows[i] && t'.rows[t.nextId] == a && i != t.nextId;
      }
      forall i, j | i in t.rows && j in t.rows && t.rows[i].url == t.rows[j].url ensures i == j {
        assert t'.rows[i] == t.rows[i] && t'.rows[j] == t.rows[j];
      }
    }
  }

  lemma {:induction false} PutKeepsInv(s: State, id: int)
    requires Inv(s) && Enabled(s, PutRow(id))
    ensures Inv(Apply(s, PutRow(id)))
  {
    var t := Apply(s, PutRow(id));
    var a := s.calls[id].a;
    var e := Put(id, a.url);
    PutUrls(s.table, a);
    OverlappedExtends(s.log, e);
    PutOverlapsExactly(s, id);
    forall c | c in t.calls && t.calls[c].Putting? ensures Queried(t, c) {
      var q: nat :| QueriedAt(s, c, q);
      PutBetweenExtends(s.log, e, q, s.calls[c].a.url);
      assert QueriedAt(t, c, q);
    }
  }

  lemma {:induction false} StepKeepsInv(s: State, op: Op)
    requires Inv(s) && Enabled(s, op)
    ensures Inv(Apply(s, op))
  {
    match op
    case Start(id, a) => StartKeepsInv(s, id, a);
    case Query(id) => QueryKeepsInv(s, id);
    case PutRow(id) => PutKeepsInv(s, id);
  }

  lemma {:induction false} RunKeepsInv(states: seq<State>, ops: seq<Op>, k: nat)
    requires IsRun(states, ops) && Initial(states[0]) && k < |states|
    ensures Inv(states[k])
  {
    if k > 0 {
      RunKeepsInv(states, ops, k - 1);
      StepKeepsInv(states[k - 1], ops[k - 1]);
    }
  }

  /** In every interleaving the table holds at most one row per URL exactly as long as no two inserts of
      one URL have overlapped: none was put between the query and the put of another. */
  lemma {:induction false} UrlsStayUniqueExactly(states: seq<State>, ops: seq<Op>, k: nat)
    requires IsRun(states, ops) && Initial(states[0]) && k < |states|
    ensures UniqueUrls(states[k].table) <==> !Overlapped(states[k].log)
  {
    RunKeepsInv(states, ops, k);
  }

  /** Two workers that save the same article, query before either puts: two rows. */
  lemma {:induction false} TwoWorkersTwoRows(a: Article) returns (states: seq<State>, ops: seq<Op>)
    ensures IsRun(states, ops) && Initial(states[0]) && !UniqueUrls(states[|ops|].table)
  {
    var s := State(Table(map[], 0), map[], []);
    ops := [Start(1, a), Start(2, a), Query(1), Query(2), PutRow(1), PutRow(2)];
    var s1 := Apply(s, ops[0]);
    var s2 := Apply(s1, ops[1]);
    var s3 := Apply(s2, ops[2]);
    var s4 := Apply(s3, ops[3]);
    var s5 := Apply(s4, ops[4]);
    var s6 := Apply(s5, ops[5]);
    states := [s, s1, s2, s3, s4, s5, s6];
    assert s6.table.rows[0].url == s6.table.rows[1].url;
  }

  /** An insert that nothing interrupts does what the one on SQLite does. */
  lemma {:induction false} InsertUninterrupted(s: State, id: int, a: Article) returns (states: seq<State>, ops: seq<Op>)
    requires s.table.Valid() && id !in s.calls
    ensures IsRun(states, ops) && states[0] == s
    ensures id in states[|ops|].calls && states[|ops|].calls[id] == Finished
    ensures states[|ops|].table == s.table.Added(a)
    ensures a.url !in s.table.Urls() ==>
      states[|ops|].table == Table(s.table.rows[s.table.nextId := a], s.table.nextId + 1)
  {
    var t := Apply(s, Start(id, a));
    var u := Apply(t, Query(id));
    if u.calls[id].Finished? {
      states, ops := [s, t, u], [Start(id, a), Query(id)];
    } else {
      states, ops := [s, t, u, Apply(u, PutRow(id))], [Start(id, a), Query(id), PutRow(id)];
    }
  }
}
