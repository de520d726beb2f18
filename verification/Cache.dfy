/** The per-user unread count cache: a class over two maps, the value it stands for, and what every
    run of its operations keeps.

    Times are integers counted from Go's zero time, so ZERO_TIME is the time for which IsZero holds
    and every clock reading is positive. */
module Cache {
  import opened Collections

  const ZERO_TIME: int := 0

  datatype CacheState = CacheState(counts: map<int, map<int, int>>, refreshAt: map<int, int>) {
    ghost predicate Valid() {
      counts.Keys == refreshAt.Keys && forall u :: u in refreshAt ==> refreshAt[u] > ZERO_TIME
    }

    /** Cached and not past its expiry: what Get calls a hit. */
    predicate Hit(userID: int, now: int) {
      userID in counts && userID in refreshAt && !(now > refreshAt[userID])
    }

    function Count(userID: int, feedID: int): int {
      if userID in counts && feedID in counts[userID] then counts[userID][feedID] else 0
    }

    function Without(userID: int): CacheState {
      CacheState(counts - {userID}, refreshAt - {userID})
    }

    function Stored(userID: int, c: map<int, int>, expiry: int): CacheState {
      CacheState(counts[userID := c], refreshAt[userID := expiry])
    }

    /** The effect of one read-status change on a cached, unexpired user. */
    function Adjusted(userID: int, feedID: int, wasRead: bool, nowRead: bool, now: int): CacheState {
      if !Hit(userID, now) || wasRead == nowRead then this else
        var n := Count(userID, feedID) + (if nowRead then -1 else 1);
        var clamped := if nowRead && n < 0 then 0 else n;
        this.(counts := counts[userID := counts[userID][feedID := clamped]])
    }

    function Pruned(now: int): CacheState {
      CacheState(
        map u | u in counts && !(u in refreshAt && now > refreshAt[u]) :: counts[u],
        map u | u in refreshAt && !(now > refreshAt[u]) :: refreshAt[u])
    }
  }

  lemma {:induction false} SamePruned(s: CacheState, t: CacheState, now: int)
    requires s.Valid() && t.Valid()
    requires forall u :: u in t.refreshAt <==> u in s.refreshAt && !(now > s.refreshAt[u])
    requires forall u :: u in t.refreshAt ==> t.refreshAt[u] == s.refreshAt[u] && t.counts[u] == s.counts[u]
    ensures t == s.Pruned(now)
  {
    var pruned := s.Pruned(now);
    forall u ensures u in t.counts <==> u in pruned.counts {
      assert u in t.counts <==> u in t.refreshAt;
      assert u in s.counts <==> u in s.refreshAt;
    }
    forall u ensures u in t.refreshAt <==> u in pruned.refreshAt {
    }
    forall u | u in t.counts ensures t.counts[u] == pruned.counts[u] {
    }
    SameMap(t.counts, pruned.counts);
    forall u | u in t.refreshAt ensures t.refreshAt[u] == pruned.refreshAt[u] {
    }
    SameMap(t.refreshAt, pruned.refreshAt);
  }

  const EMPTY := CacheState(map[], map[])

  /** The user closest to expiry. */
  ghost predicate IsEarliest(s: CacheState, userID: int) {
    userID in s.refreshAt && forall u :: u in s.refreshAt ==> s.refreshAt[userID] <= s.refreshAt[u]
  }

  ghost predicate AtCapacity(s: CacheState, userID: int, maxUsers: int) {
    maxUsers > 0 && userID !in s.counts && |s.counts| >= maxUsers
  }

  /** Storing a user's counts, after evicting a user closest to expiry when the cache is full. */
  ghost predicate SetTo(s: CacheState, s': CacheState, userID: int, c: map<int, int>, expiry: int, maxUsers: int) {
    if AtCapacity(s, userID, maxUsers)
    then exists e :: IsEarliest(s, e) && s' == s.Without(e).Stored(userID, c, expiry)
    else s' == s.Stored(userID, c, expiry)
  }

  class UnreadCache {
    var counts: map<int, map<int, int>>
    var refreshAt: map<int, int>
    const ttl: int
    var maxUsers: int
    var hits: int
    var misses: int

    ghost function State(): CacheState
      reads this
    {
      CacheState(counts, refreshAt)
    }

    constructor (ttl: int)
      ensures State() == EMPTY && this.ttl == ttl && maxUsers == 0 && hits == misses == 0
    {
      counts, refreshAt, this.ttl, maxUsers, hits, misses := map[], map[], ttl, 0, 0, 0;
    }

    method SetMaxUsers(n: int)
      modifies this`maxUsers
      ensures maxUsers == n
    {
      maxUsers := n;
    }

    method Get(userID: int, now: int) returns (result: map<int, int>, hit: bool)
      requires State().Valid()
      modifies this`hits, this`misses
      ensures State() == old(State()) && hit == State().Hit(userID, now)
      ensures hit <==> userID in counts && userID in refreshAt && now <= refreshAt[userID]
      ensures result == if hit then counts[userID] else map[]
      ensures hits + misses == old(hits + misses) + 1 && (hit <==> hits == old(hits) + 1)
    {
      if userID !in counts {
        misses := misses + 1;
        return map[], false;
      }
      if now > refreshAt[userID] {
        misses := misses + 1;
        return map[], false;
      }
      hits := hits + 1;
      return counts[userID], true;
    }

    /** The eviction scan, ranging over the expiry map in any order. */
    method FindEarliest() returns (evictID: int)
      requires State().Valid() && |counts| > 0
      ensures IsEarliest(State(), evictID)
    {
      evictID := 0;
      var earliest := ZERO_TIME;
      var pending := refreshAt.Keys;
      assert |refreshAt.Keys| == |counts.Keys| == |counts|;
      while pending != {}
        invariant pending <= refreshAt.Keys
        invariant pending == refreshAt.Keys ==> earliest == ZERO_TIME
        invariant pending != refreshAt.Keys ==>
          && evictID in refreshAt && earliest == refreshAt[evictID]
          && forall u :: u in refreshAt && u !in pending ==> earliest <= refreshAt[u]
      {
        var uid := AnyOf(pending);
        var expiry := refreshAt[uid];
        if earliest == ZERO_TIME || expiry < earliest {
          evictID := uid;
          earliest := expiry;
        }
        pending := pending - {uid};
      }
    }

    method Set(userID: int, c: map<int, int>, now: int)
      requires State().Valid() && now + ttl > ZERO_TIME
      modifies this`counts, this`refreshAt
      ensures State().Valid() && SetTo(old(State()), State(), userID, c, now + ttl, maxUsers)
    {
      if maxUsers > 0 {
        if userID !in counts && |counts| >= maxUsers {
          var evictID := FindEarliest();
          counts := counts - {evictID};
          refreshAt := refreshAt - {evictID};
          assert State() == old(State()).Without(evictID);
        }
      }
      counts := counts[userID := c];
      refreshAt := refreshAt[userID := now + ttl];
    }

    method UpdateCount(userID: int, feedID: int, wasRead: bool, nowRead: bool, now: int)
      requires State().Valid()
      modifies this`counts
      ensures State().Valid() && State() == old(State()).Adjusted(userID, feedID, wasRead, nowRead, now)
    {
      if userID !in counts {
        return;
      }
      if now > refreshAt[userID] {
        return;
      }
      var c := counts[userID];
      var count := if feedID in c then c[feedID] else 0;
      if !wasRead && nowRead {
        c := c[feedID := count - 1];
        if c[feedID] < 0 {
          c := c[feedID := 0];
          assert c == counts[userID][feedID := 0];
        }
        counts := counts[userID := c];
      } else if wasRead && !nowRead {
        c := c[feedID := count + 1];
        counts := counts[userID := c];
      }
    }

    method Invalidate(userID: int)
      modifies this`counts, this`refreshAt
      ensures State() == old(State()).Without(userID)
    {
      counts := counts - {userID};
      refreshAt := refreshAt - {userID};
    }

    method InvalidateAll()
      modifies this`counts, this`refreshAt
      ensures State() == EMPTY
    {
      counts, refreshAt := map[], map[];
    }

    /** One tick of the background sweep. */
    method CleanupExpiredEntries(now: int)
      requires State().Valid()
      modifies this`counts, this`refreshAt
      ensures State() == old(State()).Pruned(now) && State().Valid()
    {
      ghost var s := State();
      var pending := refreshAt.Keys;
      while pending != {}
        invariant pending <= s.refreshAt.Keys && State().Valid()
        invariant forall u :: u in refreshAt <==> u in s.refreshAt && (u in pending || !(now > s.refreshAt[u]))
        invariant forall u :: u in refreshAt ==> refreshAt[u] == s.refreshAt[u] && counts[u] == s.counts[u]
      {
        var uid := AnyOf(pending);
        pending := pending - {uid};
        if now > refreshAt[uid] {
          counts := counts - {uid};
          refreshAt := refreshAt - {uid};
        }
      }
      SamePruned(s, State(), now);
    }
  }

  // ---------------------------------------------------------------------------------------
  // Every run of operations.
  // ---------------------------------------------------------------------------------------

  datatype CacheOp =
    | Set(userID: int, c: map<int, int>, expiry: int)
    | UpdateCount(userID: int, feedID: int, wasRead: bool, nowRead: bool, now: int)
    | Invalidate(userID: int)
    | InvalidateAll
    | Cleanup(now: int)

  ghost predicate CacheStep(s: CacheState, op: CacheOp, s': CacheState, maxUsers: int) {
    match op
    case Set(u, c, expiry) => expiry > ZERO_TIME && SetTo(s, s', u, c, expiry, maxUsers)
    case UpdateCount(u, f, wasRead, nowRead, now) => s' == s.Adjusted(u, f, wasRead, nowRead, now)
    case Invalidate(u) => s' == s.Without(u)
    case InvalidateAll => s' == EMPTY
    case Cleanup(now) => s' == s.Pruned(now)
  }

  ghost predicate WithinCap(s: CacheState, maxUsers: int) {
    s.Valid() && |s.counts| <= maxUsers
  }

  lemma {:induction false} FewerKeys(a: map<int, map<int, int>>, b: map<int, map<int, int>>)
    requires a.Keys <= b.Keys
    ensures |a| <= |b|
  {
    SubsetCardinality(a.Keys, b.Keys);
    assert |a| == |a.Keys| && |b| == |b.Keys|;
  }

  lemma {:induction false} StoredSize(s: CacheState, u: int, c: map<int, int>, expiry: int)
    ensures |s.Stored(u, c, expiry).counts| == |s.counts| + (if u in s.counts then 0 else 1)
  {
    var t := s.Stored(u, c, expiry);
    assert t.counts.Keys == s.counts.Keys + {u};
    assert |t.counts| == |t.counts.Keys| && |s.counts| == |s.counts.Keys|;
    if u in s.counts {
      assert s.counts.Keys + {u} == s.counts.Keys;
    }
  }

  lemma {:induction false} WithoutSize(s: CacheState, u: int)
    requires u in s.counts
    ensures |s.Without(u).counts| == |s.counts| - 1
  {
    assert s.Without(u).counts.Keys == s.counts.Keys - {u};
    assert |s.Without(u).counts| == |s.Without(u).counts.Keys| && |s.counts| == |s.counts.Keys|;
  }

  lemma {:induction false} SetKeepsCap(s: CacheState, s': CacheState, u: int, c: map<int, int>, expiry: int,
                                       maxUsers: int)
    requires maxUsers > 0 && WithinCap(s, maxUsers) && expiry > ZERO_TIME
    requires SetTo(s, s', u, c, expiry, maxUsers)
    ensures WithinCap(s', maxUsers)
  {
    if AtCapacity(s, u, maxUsers) {
      var e :| IsEarliest(s, e) && s' == s.Without(e).Stored(u, c, expiry);
      WithoutSize(s, e);
      StoredSize(s.Without(e), u, c, expiry);
    } else {
      StoredSize(s, u, c, expiry);
    }
  }

  /** Every operation keeps the two maps on one key set and within the cap. */
  lemma {:induction false} StepKeepsCap(s: CacheState, op: CacheOp, s': CacheState, maxUsers: int)
    requires maxUsers > 0 && WithinCap(s, maxUsers) && CacheStep(s, op, s', maxUsers)
    ensures WithinCap(s', maxUsers)
  {
    match op
    case Set(u, c, expiry) => SetKeepsCap(s, s', u, c, expiry, maxUsers);
    case UpdateCount(u, f, wasRead, nowRead, now) =>
      FewerKeys(s'.counts, s.counts);
    case Invalidate(u) => FewerKeys(s'.counts, s.counts);
    case InvalidateAll =>
    case Cleanup(now) => FewerKeys(s'.counts, s.counts);
  }

  ghost predicate IsCacheRun(states: seq<CacheState>, ops: seq<CacheOp>, maxUsers: int) {
    && |states| == |ops| + 1
    && forall i :: 0 <= i < |ops| ==> CacheStep(states[i], ops[i], states[i + 1], maxUsers)
  }

  /** From an empty cache with a positive cap, no run of operations exceeds the cap or lets the two
      maps disagree on their keys. */
  lemma {:induction false} RunsKeepCap(states: seq<CacheState>, ops: seq<CacheOp>, maxUsers: int, i: nat)
    requires maxUsers > 0 && IsCacheRun(states, ops, maxUsers) && states[0] == EMPTY && i < |states|
    ensures WithinCap(states[i], maxUsers)
  {
    if i > 0 {
      RunsKeepCap(states, ops, maxUsers, i - 1);
      StepKeepsCap(states[i - 1], ops[i - 1], states[i], maxUsers);
    }
  }

  /** What is stored is served until its expiry, that moment included. */
  lemma {:induction false} StoredIsServedUntilExpiry(s: CacheState, s': CacheState, u: int, c: map<int, int>,
                                                     expiry: int, maxUsers: int, now: int)
    requires SetTo(s, s', u, c, expiry, maxUsers)
    ensures u in s'.counts && s'.counts[u] == c
    ensures s'.Hit(u, now) <==> now <= expiry
  {
    if AtCapacity(s, u, maxUsers) {
      var e :| IsEarliest(s, e) && s' == s.Without(e).Stored(u, c, expiry);
    }
  }

  /** A sweep removes exactly the users past their expiry, so no later call can tell whether it took
      place. */
  lemma {:induction false} SweepIsInvisible(s: CacheState, u: int, at: int, now: int)
    requires s.Valid() && at <= now
    ensures u in s.Pruned(at).counts <==> u in s.counts && at <= s.refreshAt[u]
    ensures s.Pruned(at).Hit(u, now) <==> s.Hit(u, now)
    ensures s.Hit(u, now) ==> s.Pruned(at).counts[u] == s.counts[u] && s.Pruned(at).refreshAt[u] == s.refreshAt[u]
  {
  }

  /** Storing a new user in a full cache evicts exactly one user, of minimum expiry, and leaves all
      other users' counts and expiries as they were. */
  lemma {:induction false} EvictionIsMinimal(s: CacheState, s': CacheState, u: int, c: map<int, int>,
                                             expiry: int, maxUsers: int)
    returns (evicted: int)
    requires s.Valid() && AtCapacity(s, u, maxUsers) && SetTo(s, s', u, c, expiry, maxUsers)
    ensures IsEarliest(s, evicted) && evicted != u && evicted !in s'.counts
    ensures s'.counts.Keys == s.counts.Keys - {evicted} + {u} && |s'.counts| == |s.counts|
    ensures forall v :: v in s.counts && v != evicted ==>
      s'.counts[v] == s.counts[v] && s'.refreshAt[v] == s.refreshAt[v]
    ensures s'.counts[u] == c && s'.refreshAt[u] == expiry
  {
    evicted :| IsEarliest(s, evicted) && s' == s.Without(evicted).Stored(u, c, expiry);
    WithoutSize(s, evicted);
    StoredSize(s.Without(evicted), u, c, expiry);
  }
}
