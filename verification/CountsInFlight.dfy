/** Unread count calls that run beside other calls: the database read of a miss and the cache write that
    follows it as two steps, with any service calls in between. */
module CountsInFlight {
  import opened Collections
  import opened ArticleStore
  import opened Cache
  import opened UnreadService
  import U = UnreadCounts

  /** A count call that has read the database and has yet to fill the cache. */
  datatype Flight = Flight(userID: int, counts: map<int, int>)

  datatype State = State(s: Service, flights: map<int, Flight>)

  datatype Move =
    | Do(op: Op)                                         // any call but a count call, in one step
    | Read(call: int, userID: int, userFeeds: set<int>)  // a miss
    | Fill(call: int)

  ghost predicate Step2(x: State, m: Move, y: State, ttl: int, maxUsers: int) {
    match m
    case Do(op) => !op.Counts? && Step(x.s, op, y.s, ttl, maxUsers) && y.flights == x.flights
    case Read(c, u, userFeeds) =>
      && c !in x.flights && !x.s.cache.Hit(u, x.s.now)
      && y == x.(flights := x.flights[c := Flight(u, Filtered(Recount(x.s.db, u, x.s.now), userFeeds))])
    case Fill(c) =>
      && c in x.flights && y.flights == x.flights - {c} && y.s.db == x.s.db && y.s.now == x.s.now
      && SetTo(x.s.cache, y.s.cache, x.flights[c].userID, x.flights[c].counts, x.s.now + ttl, maxUsers)
  }

  ghost predicate Honest(x: State, m: Move) {
    match m
    case Do(op) => Truthful(x.s, op)
    case Read(_, u, userFeeds) => UserFeeds(x.s.db, u) <= userFeeds
    case Fill(_) => true
  }

  ghost predicate IsRun2(states: seq<State>, moves: seq<Move>, ttl: int, maxUsers: int) {
    && |states| == |moves| + 1
    && forall i :: 0 <= i < |moves| ==>
         Step2(states[i], moves[i], states[i + 1], ttl, maxUsers) && Honest(states[i], moves[i])
         && states[i].s.now + ttl > ZERO_TIME
  }

  ghost predicate Idle(x: State) {
    x.s.cache == EMPTY && x.flights == map[]
  }

  /** A count call that nothing interrupts is the service's one step. */
  lemma {:induction false} CountUninterrupted(x: State, c: int, u: int, userFeeds: set<int>, y: State, z: State,
                                              ttl: int, maxUsers: int)
    requires Step2(x, Read(c, u, userFeeds), y, ttl, maxUsers) && Step2(y, Fill(c), z, ttl, maxUsers)
    ensures Step(x.s, Counts(u, userFeeds), z.s, ttl, maxUsers) && z.flights == x.flights
  {
    assert z.flights == x.flights[c := y.flights[c]] - {c};
    forall d ensures d in z.flights <==> d in x.flights {
    }
    SameMap(z.flights, x.flights);
  }

  // ---------------------------------------------------------------------------------------
  // Drift of one user's count for one feed: of the cached count, and of each count in flight.
  // ---------------------------------------------------------------------------------------

  datatype Account = Account(drift: nat, pending: map<int, nat>)

  function CountIn(counts: map<int, int>, f: int): int {
    if f in counts then counts[f] else 0
  }

  /** How far the exact count moves in a step. */
  ghost function Moved(s: Service, s': Service, u: int, f: int): nat {
    var before, after := |Unread(s.db, u, f, s.now)|, |Unread(s'.db, u, f, s'.now)|;
    if before < after then after - before else before - after
  }

  /** A count in flight is exact when it is read, and misses whatever moves the exact count until it is
      stored; then its drift becomes that of the cached count. */
  ghost function Booked(x: State, m: Move, y: State, u: int, f: int, a: Account): Account
    requires m.Fill? ==> m.call in x.flights && m.call in a.pending
  {
    match m
    case Do(op) =>
      Account(DriftAfter(x.s, op, u, f, a.drift), map c | c in a.pending :: a.pending[c] + Moved(x.s, y.s, u, f))
    case Read(c, _, _) =>
      a.(pending := a.pending[c := if x.s.db.Subscribed(u, f) then 0 else |Unread(x.s.db, u, f, x.s.now)|])
    case Fill(c) =>
      Account(if x.flights[c].userID == u then a.pending[c] else a.drift, a.pending - {c})
  }

  ghost predicate FlightClose(x: State, c: int, u: int, f: int, d: nat)
    requires c in x.flights
  {
    x.flights[c].userID == u ==>
      && 0 <= CountIn(x.flights[c].counts, f)
      && Within(CountIn(x.flights[c].counts, f), |Unread(x.s.db, u, f, x.s.now)|, d)
  }

  ghost predicate Inv(x: State, u: int, f: int, a: Account) {
    && Bounded(x.s, u, f, a.drift) && a.pending.Keys == x.flights.Keys
    && forall c :: c in x.flights ==> FlightClose(x, c, u, f, a.pending[c])
  }

  lemma {:induction false} DoKeepsInv(x: State, m: Move, y: State, ttl: int, maxUsers: int, u: int, f: int, a: Account)
    requires m.Do? && Step2(x, m, y, ttl, maxUsers) && Honest(x, m) && Inv(x, u, f, a) && x.s.now + ttl > ZERO_TIME
    ensures Inv(y, u, f, Booked(x, m, y, u, f, a))
  {
    StepKeepsBound(x.s, m.op, y.s, u, f, a.drift, ttl, maxUsers);
    var b := Booked(x, m, y, u, f, a);
    forall c | c in y.flights ensures FlightClose(y, c, u, f, b.pending[c]) {
      assert FlightClose(x, c, u, f, a.pending[c]);
    }
  }

  lemma {:induction false} ReadKeepsInv(x: State, m: Move, y: State, ttl: int, maxUsers: int, u: int, f: int,
                                        a: Account)
    requires m.Read? && Step2(x, m, y, ttl, maxUsers) && Honest(x, m) && Inv(x, u, f, a)
    ensures Inv(y, u, f, Booked(x, m, y, u, f, a))
  {
    var b := Booked(x, m, y, u, f, a);
    forall c | c in y.flights ensures FlightClose(y, c, u, f, b.pending[c]) {
      if c != m.call {
        assert FlightClose(x, c, u, f, a.pending[c]);
      } else if m.userID == u {
        if x.s.db.Subscribed(u, f) {
          assert (u, f) in x.s.db.subscriptions && f in UserFeeds(x.s.db, u);
        } else {
          assert f !in UserFeeds(x.s.db, u);
        }
      }
    }
  }

  /** Filling the cache with a close count: the user's cached count is that one. */
  lemma {:induction false} OwnFillIsBounded(s: Service, s': Service, u: int, counts: map<int, int>, expiry: int,
                                            maxUsers: int, f: int, d: nat)
    requires s'.db == s.db && s'.now == s.now && expiry > ZERO_TIME && s.cache.Valid()
    requires SetTo(s.cache, s'.cache, u, counts, expiry, maxUsers)
    requires 0 <= CountIn(counts, f) && Within(CountIn(counts, f), |Unread(s.db, u, f, s.now)|, d)
    ensures Bounded(s', u, f, d)
  {
    if AtCapacity(s.cache, u, maxUsers) {
      var e :| IsEarliest(s.cache, e) && s'.cache == s.cache.Without(e).Stored(u, counts, expiry);
    }
    assert s'.cache.Count(u, f) == CountIn(counts, f);
  }

  /** Somebody else's fill at most evicts the user. */
  lemma {:induction false} OtherFillIsBounded(s: Service, s': Service, v: int, counts: map<int, int>, expiry: int,
                                              maxUsers: int, u: int, f: int, d: nat)
    requires s'.db == s.db && s'.now == s.now && expiry > ZERO_TIME && v != u
    requires SetTo(s.cache, s'.cache, v, counts, expiry, maxUsers) && Bounded(s, u, f, d)
    ensures Bounded(s', u, f, d)
  {
    if AtCapacity(s.cache, v, maxUsers) {
      var e :| IsEarliest(s.cache, e) && s'.cache == s.cache.Without(e).Stored(v, counts, expiry);
    }
  }

  lemma {:induction false} FillKeepsInv(x: State, m: Move, y: State, ttl: int, maxUsers: int, u: int, f: int,
                                        a: Account)
    requires m.Fill? && Step2(x, m, y, ttl, maxUsers) && Inv(x, u, f, a) && x.s.now + ttl > ZERO_TIME
    ensures Inv(y, u, f, Booked(x, m, y, u, f, a))
  {
    var b := Booked(x, m, y, u, f, a);
    var flight := x.flights[m.call];
    assert FlightClose(x, m.call, u, f, a.pending[m.call]);
    if flight.userID == u {
      OwnFillIsBounded(x.s, y.s, u, flight.counts, x.s.now + ttl, maxUsers, f, b.drift);
    } else {
      OtherFillIsBounded(x.s, y.s, flight.userID, flight.counts, x.s.now + ttl, maxUsers, u, f, b.drift);
    }
    forall c | c in y.flights ensures FlightClose(y, c, u, f, b.pending[c]) {
      assert FlightClose(x, c, u, f, a.pending[c]);
    }
  }

  lemma {:induction false} MoveKeepsInv(x: State, m: Move, y: State, ttl: int, maxUsers: int, u: int, f: int,
                                        a: Account)
    requires Step2(x, m, y, ttl, maxUsers) && Honest(x, m) && Inv(x, u, f, a) && x.s.now + ttl > ZERO_TIME
    ensures Inv(y, u, f, Booked(x, m, y, u, f, a))
  {
    match m
    case Do(_) => DoKeepsInv(x, m, y, ttl, maxUsers, u, f, a);
    case Read(_, _, _) => ReadKeepsInv(x, m, y, ttl, maxUsers, u, f, a);
    case Fill(_) => FillKeepsInv(x, m, y, ttl, maxUsers, u, f, a);
  }

  /** The accounts along a run. */
  ghost predicate Books(states: seq<State>, moves: seq<Move>, u: int, f: int, accounts: seq<Account>) {
    && |states| == |moves| + 1 == |accounts| && accounts[0] == Account(0, map[])
    && forall i :: 0 <= i < |moves| ==>
         && (moves[i].Fill? ==> moves[i].call in states[i].flights && moves[i].call in accounts[i].pending)
         && accounts[i + 1] == Booked(states[i], moves[i], states[i + 1], u, f, accounts[i])
  }

  /** In every interleaving a cached count is within its booked drift of a recount. */
  lemma {:induction false} FlightsStayBounded(states: seq<State>, moves: seq<Move>, ttl: int, maxUsers: int,
                                              u: int, f: int, accounts: seq<Account>, n: nat)
    requires IsRun2(states, moves, ttl, maxUsers) && Idle(states[0]) && n < |states|
    requires Books(states, moves, u, f, accounts)
    ensures Inv(states[n], u, f, accounts[n])
  {
    if n > 0 {
      FlightsStayBounded(states, moves, ttl, maxUsers, u, f, accounts, n - 1);
      MoveKeepsInv(states[n - 1], moves[n - 1], states[n], ttl, maxUsers, u, f, accounts[n - 1]);
    }
  }

  // ---------------------------------------------------------------------------------------
  // Without the user's own writes meanwhile, a count in flight drifts like a cached one.
  // ---------------------------------------------------------------------------------------

  /** The call can change which articles the user has read. */
  predicate WritesStatus(op: Op, u: int) {
    (op.MarkRead? || op.MarkAllRead? || op.Subscribe?) && op.userID == u
  }

  /** No status of the user is written while a count call of the user is in flight. */
  ghost predicate Calm(x: State, m: Move, u: int) {
    m.Do? && WritesStatus(m.op, u) ==> forall c :: c in x.flights ==> x.flights[c].userID != u
  }

  lemma {:induction false} ArrivalMoves(s: Service, op: Op, s': Service, u: int, f: int, ttl: int, maxUsers: int)
    requires op.Arrive? && Step(s, op, s', ttl, maxUsers) && Truthful(s, op)
    ensures Moved(s, s', u, f) <= DriftAfter(s, op, u, f, 0)
  {
    var before, after := Unread(s.db, u, f, s.now), Unread(s'.db, u, f, s'.now);
    if op.articleID in after {
      SameSet(after, before + {op.articleID});
    } else {
      SameSet(after, before);
    }
  }

  lemma {:induction false} TickMoves(s: Service, op: Op, s': Service, u: int, f: int, ttl: int, maxUsers: int)
    requires op.Tick? && Step(s, op, s', ttl, maxUsers) && Truthful(s, op)
    ensures Moved(s, s', u, f) <= DriftAfter(s, op, u, f, 0)
  {
    var before, after := Unread(s.db, u, f, s.now), Unread(s'.db, u, f, s'.now);
    SubsetCardinality(before - after, AgedOut(s.db, f, s.now, op.now));
    SubsetCardinality(after, before);
    SameSet(before, after + (before - after));
    assert |before| == |after| + |before - after|;
  }

  /** Nothing but arrivals and age-outs moves the exact count, unless the user writes. */
  lemma {:induction false} OthersMoveLittle(s: Service, op: Op, s': Service, u: int, f: int, ttl: int, maxUsers: int)
    requires !op.Counts? && Step(s, op, s', ttl, maxUsers) && Truthful(s, op) && !WritesStatus(op, u)
    ensures Moved(s, s', u, f) <= DriftAfter(s, op, u, f, 0)
  {
    if op.Arrive? {
      ArrivalMoves(s, op, s', u, f, ttl, maxUsers);
    } else if op.Tick? {
      TickMoves(s, op, s', u, f, ttl, maxUsers);
    } else if !op.Sweep? {
      forall id ensures s'.db.IsRead(u, id) == s.db.IsRead(u, id) {
        match op
        case MarkAllRead(v) =>
          OverwriteKeepsOthers(s.db, v, SubscribedArticles(s.db, v), Status(true, false), u, id);
        case Subscribe(v, g, marked) =>
          var joined := s.db.(subscriptions := s.db.subscriptions + {(v, g)});
          OverwriteKeepsOthers(joined, v, marked, Status(false, false), u, id);
        case _ =>
      }
      SameReadsSameUnread(s.db, s'.db, u, f, s.now);
    }
  }

  /** The accounts of sequential calls: a count in flight books what a cached count would. */
  ghost function BookedPlainly(x: State, m: Move, u: int, f: int, a: Account): Account
    requires m.Fill? ==> m.call in x.flights && m.call in a.pending
  {
    match m
    case Do(op) =>
      Account(DriftAfter(x.s, op, u, f, a.drift),
              map c | c in a.pending :: a.pending[c] + DriftAfter(x.s, op, u, f, 0))
    case Read(c, _, _) =>
      a.(pending := a.pending[c := if x.s.db.Subscribed(u, f) then 0 else |Unread(x.s.db, u, f, x.s.now)|])
    case Fill(c) =>
      Account(if x.flights[c].userID == u then a.pending[c] else a.drift, a.pending - {c})
  }

  ghost predicate PlainBooks(states: seq<State>, moves: seq<Move>, u: int, f: int, accounts: seq<Account>) {
    && |states| == |moves| + 1 == |accounts| && accounts[0] == Account(0, map[])
    && forall i :: 0 <= i < |moves| ==>
         && (moves[i].Fill? ==> moves[i].call in states[i].flights && moves[i].call in accounts[i].pending)
         && accounts[i + 1] == BookedPlainly(states[i], moves[i], u, f, accounts[i])
  }

  /** Closeness only gets easier with a larger drift. */
  lemma {:induction false} LargerDrift(x: State, u: int, f: int, a: Account, b: Account)
    requires Inv(x, u, f, a) && a.drift <= b.drift && b.pending.Keys == a.pending.Keys
    requires forall c :: c in x.flights && x.flights[c].userID == u ==> a.pending[c] <= b.pending[c]
    ensures Inv(x, u, f, b)
  {
    forall c | c in x.flights ensures FlightClose(x, c, u, f, b.pending[c]) {
      assert FlightClose(x, c, u, f, a.pending[c]);
    }
  }

  lemma {:induction false} CalmMoveKeepsInv(x: State, m: Move, y: State, ttl: int, maxUsers: int, u: int,
                                            f: int, a: Account)
    requires Step2(x, m, y, ttl, maxUsers) && Honest(x, m) && Inv(x, u, f, a) && x.s.now + ttl > ZERO_TIME
    requires Calm(x, m, u)
    ensures Inv(y, u, f, BookedPlainly(x, m, u, f, a))
  {
    MoveKeepsInv(x, m, y, ttl, maxUsers, u, f, a);
    var b, plain := Booked(x, m, y, u, f, a), BookedPlainly(x, m, u, f, a);
    if m.Do? {
      if !WritesStatus(m.op, u) {
        OthersMoveLittle(x.s, m.op, y.s, u, f, ttl, maxUsers);
      }
      LargerDrift(y, u, f, b, plain);
    }
  }

  /** When no status of the user is written while one of the user's count calls is in flight, the drift
      bound of sequential calls holds in every interleaving: a cached count is off by at most the
      arrivals, age-outs and out-of-window flips since the read that filled it. */
  lemma {:induction false} CalmRunsStayBounded(states: seq<State>, moves: seq<Move>, ttl: int, maxUsers: int,
                                               u: int, f: int, accounts: seq<Account>, n: nat)
    requires IsRun2(states, moves, ttl, maxUsers) && Idle(states[0]) && n < |states|
    requires PlainBooks(states, moves, u, f, accounts)
    requires forall i :: 0 <= i < |moves| ==> Calm(states[i], moves[i], u)
    ensures Inv(states[n], u, f, accounts[n]) && Bounded(states[n].s, u, f, accounts[n].drift)
  {
    if n > 0 {
      CalmRunsStayBounded(states, moves, ttl, maxUsers, u, f, accounts, n - 1);
      CalmMoveKeepsInv(states[n - 1], moves[n - 1], states[n], ttl, maxUsers, u, f, accounts[n - 1]);
    }
  }

  /** By how much a status write of the user moves the feed's exact count. */
  ghost function StatusMoves(s: Service, op: Op, u: int, f: int): nat
    requires WritesStatus(op, u)
  {
    match op
    case MarkRead(_, a, isRead, _, wasRead) =>
      if a in U.InWindow(s.db, f, s.now - UNREAD_WINDOW) && isRead != wasRead then 1 else 0
    case MarkAllRead(_) => if s.db.Subscribed(u, f) then |Unread(s.db, u, f, s.now)| else 0
    case Subscribe(_, _, marked) => |ReadAmong(s, u, f, marked)|
    case _ => 0
  }

  /** The recent read articles of the feed among those that subscribing marks unread. */
  ghost function ReadAmong(s: Service, u: int, f: int, marked: set<int>): set<int> {
    set id | id in U.InWindow(s.db, f, s.now - UNREAD_WINDOW) && id in marked && s.db.IsRead(u, id)
  }

  lemma {:induction false} SubscribeMoves(s: Service, op: Op, s': Service, u: int, f: int, ttl: int, maxUsers: int)
    requires op.Subscribe? && op.userID == u && Step(s, op, s', ttl, maxUsers)
    ensures Moved(s, s', u, f) == StatusMoves(s, op, u, f)
  {
    var before, after := Unread(s.db, u, f, s.now), Unread(s'.db, u, f, s'.now);
    var added := ReadAmong(s, u, f, op.marked);
    SameSet(after, before + added);
    assert before !! added;
    assert |before + added| == |before| + |added|;
  }

  lemma {:induction false} MarkAllMoves(s: Service, op: Op, s': Service, u: int, f: int, ttl: int, maxUsers: int)
    requires op.MarkAllRead? && op.userID == u && Step(s, op, s', ttl, maxUsers)
    ensures Moved(s, s', u, f) == StatusMoves(s, op, u, f)
  {
    if s.db.Subscribed(u, f) {
      SameSet(Unread(s'.db, u, f, s'.now), {});
    } else {
      SameSet(Unread(s'.db, u, f, s'.now), Unread(s.db, u, f, s.now));
    }
  }

  lemma {:induction false} OwnWriteMoves(s: Service, op: Op, s': Service, u: int, f: int, ttl: int, maxUsers: int)
    requires WritesStatus(op, u) && Step(s, op, s', ttl, maxUsers) && Truthful(s, op)
    ensures Moved(s, s', u, f) == StatusMoves(s, op, u, f)
  {
    if op.MarkRead? {
      MarkReadCount(s.db, u, op.articleID, op.isRead, f, s.now);
    } else if op.MarkAllRead? {
      MarkAllMoves(s, op, s', u, f, ttl, maxUsers);
    } else {
      SubscribeMoves(s, op, s', u, f, ttl, maxUsers);
    }
  }

  /** A status write of the user leaves an exact count in flight within the plain bound exactly when it
      does not move the feed's count: it flips no recent article of the feed. */
  lemma {:induction false} OwnWriteMissedExactly(x: State, m: Move, y: State, ttl: int, maxUsers: int, c: int,
                                                 u: int, f: int, a: Account)
    requires m.Do? && WritesStatus(m.op, u) && Step2(x, m, y, ttl, maxUsers) && Honest(x, m)
    requires c in x.flights && x.flights[c].userID == u && c in a.pending && a.pending[c] == 0
    requires CountIn(x.flights[c].counts, f) == |Unread(x.s.db, u, f, x.s.now)|
    ensures FlightClose(y, c, u, f, BookedPlainly(x, m, u, f, a).pending[c]) <==> StatusMoves(x.s, m.op, u, f) == 0
  {
    OwnWriteMoves(x.s, m.op, y.s, u, f, ttl, maxUsers);
  }

  /** Otherwise it can fail: counts read before everything is marked read, and stored after it, are
      served although nothing is unread, with no arrival or age-out to account for them. */
  lemma {:induction false} StaleCountsAreStored(x: State, u: int, f: int, ttl: int)
    returns (a: State, b: State, c: State)
    requires x.flights == map[] && x.s.cache == EMPTY && x.s.db.Subscribed(u, f) && ttl > 0 && x.s.now > ZERO_TIME
    requires |Unread(x.s.db, u, f, x.s.now)| > 0
    ensures Step2(x, Read(1, u, UserFeeds(x.s.db, u)), a, ttl, 0)
    ensures Step2(a, Do(MarkAllRead(u)), b, ttl, 0) && Step2(b, Fill(1), c, ttl, 0)
    ensures c.s.cache.Hit(u, c.s.now) && c.s.cache.Count(u, f) == |Unread(x.s.db, u, f, x.s.now)| > 0
    ensures |Unread(c.s.db, u, f, c.s.now)| == 0
  {
    var counts := Filtered(Recount(x.s.db, u, x.s.now), UserFeeds(x.s.db, u));
    a := x.(flights := map[1 := Flight(u, counts)]);
    b := State(Service(AllMarkedRead(a.s.db, u), a.s.cache.Without(u), a.s.now), a.flights);
    c := State(b.s.(cache := b.s.cache.Stored(u, counts, b.s.now + ttl)), map[]);
    assert (u, f) in x.s.db.subscriptions && f in UserFeeds(x.s.db, u);
    assert Unread(c.s.db, u, f, c.s.now) == {};
    assert b.flights - {1} == map[];
  }
}
