/** The session manager's in-memory cache in front of the session table: the class with its lock
    sections, and every interleaving of calls whose lookup, database and cache steps are separate. */
module SessionCache {
  import opened Results
  import opened Collections

  const SESSION_LIFETIME: int := 7 * 24 * 3600 * 1_000_000_000

  /** A cached session: the expiry it carries, and until when the cache may serve it. */
  datatype Entry = Entry(expiresAt: int, cacheExpires: int)

  type Cache = map<string, Entry>

  /** The two session tables differ where a refreshed row is missing: SQLite updates no row and
      succeeds, Datastore reads the row first and fails. */
  datatype Backend = Sqlite | Datastore

  predicate Hit(cache: Cache, sid: string, now: int) {
    sid in cache && now < cache[sid].cacheExpires
  }

  /** Refreshing replaces the expiry inside a cached session, not the cache deadline. */
  function Touched(cache: Cache, sid: string, newExpiry: int): Cache {
    if sid in cache then cache[sid := cache[sid].(expiresAt := newExpiry)] else cache
  }

  function Pruned(cache: Cache, now: int): Cache {
    map sid | sid in cache && !(now > cache[sid].cacheExpires) :: cache[sid]
  }

  lemma {:induction false} SamePruned(before: Cache, after: Cache, now: int)
    requires forall s :: s in after <==> s in before && !(now > before[s].cacheExpires)
    requires forall s :: s in after ==> after[s] == before[s]
    ensures after == Pruned(before, now)
  {
    forall s | s in after ensures after[s] == Pruned(before, now)[s] {
    }
    SameMap(after, Pruned(before, now));
  }

  /** Each entry was written in the past, and not after the session it holds had expired. */
  ghost predicate Punctual(cache: Cache, ttl: int, now: int) {
    forall sid :: sid in cache ==>
      var written := cache[sid].cacheExpires - ttl; written <= now && written <= cache[sid].expiresAt
  }

  /** A hit does not look at the session's expiry. Served too late is a session from an entry whose
      deadline is behind its expiry, between the two; with punctual writes by less than the TTL. */
  predicate ServedLate(cache: Cache, sid: string, now: int) {
    Hit(cache, sid, now) && now > cache[sid].expiresAt
  }

  lemma {:induction false} LateByLessThanTTL(cache: Cache, ttl: int, sid: string, now: int)
    requires sid in cache
    ensures ServedLate(cache, sid, now) <==> cache[sid].expiresAt < now < cache[sid].cacheExpires
    ensures ServedLate(cache, sid, now) && Punctual(cache, ttl, now) ==> now - cache[sid].expiresAt < ttl
  {
  }

  class SessionManager {
    var db: map<string, int>      // session id -> expiry
    var cache: Cache
    const cacheTTL: int
    const backend: Backend
    var cacheHits: int
    var cacheMisses: int

    constructor (db: map<string, int>, cacheTTL: int, backend: Backend)
      ensures this.db == db && cache == map[] && this.cacheTTL == cacheTTL && this.backend == backend
      ensures cacheHits == cacheMisses == 0
    {
      this.db, cache, this.cacheTTL, this.backend, cacheHits, cacheMisses := db, map[], cacheTTL, backend, 0, 0;
    }

    /** A failed database delete is only logged; the cache entry goes either way. */
    method DeleteSession(sid: string, dbOk: bool)
      modifies this`db, this`cache
      ensures db == if dbOk then old(db) - {sid} else old(db)
      ensures cache == old(cache) - {sid}
    {
      if dbOk {
        db := db - {sid};
      }
      cache := cache - {sid};
    }

    /** GetSession run without interruption. `dbOk`, `deleteOk` and `userOk` say whether the session
        read, the delete of an expired session and the user read succeed. */
    method GetSession(sid: string, now: int, dbOk: bool, deleteOk: bool, userOk: bool)
      returns (session: Option<int>)
      modifies this
      ensures session.Some? <==>
        Hit(old(cache), sid, now) || (dbOk && sid in old(db) && !(now > old(db)[sid]) && userOk)
      ensures session.Some? ==>
        session.value == if Hit(old(cache), sid, now) then old(cache)[sid].expiresAt else old(db)[sid]
      ensures cache == if Hit(old(cache), sid, now) then old(cache)
                       else if session.Some? then old(cache)[sid := Entry(old(db)[sid], now + cacheTTL)]
                       else if dbOk && sid in old(db) && now > old(db)[sid] then old(cache) - {sid}
                       else old(cache)
      ensures db == if !Hit(old(cache), sid, now) && dbOk && sid in old(db) && now > old(db)[sid] && deleteOk
                    then old(db) - {sid} else old(db)
      ensures cacheHits + cacheMisses == old(cacheHits + cacheMisses) + 1
      ensures cacheHits == old(cacheHits) + 1 <==> sid in old(cache) && now < old(cache)[sid].cacheExpires
      ensures session.Some? ==> (now > session.value <==> ServedLate(old(cache), sid, now))
      ensures Punctual(old(cache), cacheTTL, now) ==> Punctual(cache, cacheTTL, now)
      ensures Punctual(old(cache), cacheTTL, now) && session.Some? && now > session.value ==>
        now - session.value < cacheTTL
    {
      if sid in cache {
        var cached := cache[sid];
        if now < cached.cacheExpires {
          cacheHits := cacheHits + 1;
          return Some(cached.expiresAt);
        }
      }
      cacheMisses := cacheMisses + 1;
      if !dbOk || sid !in db {
        return None;
      }
      var expiresAt := db[sid];
      if now > expiresAt {
        DeleteSession(sid, deleteOk);
        return None;
      }
      if !userOk {
        return None;
      }
      cache := cache[sid := Entry(expiresAt, now + cacheTTL)];
      session := Some(expiresAt);
    }

    /** RefreshSession run without interruption. */
    method RefreshSession(sid: string, now: int, dbOk: bool) returns (ok: bool)
      modifies this`db, this`cache
      ensures ok <==> dbOk && (backend.Datastore? ==> sid in old(db))
      ensures db == if dbOk && sid in old(db) then old(db)[sid := now + SESSION_LIFETIME] else old(db)
      ensures cache == if ok then Touched(old(cache), sid, now + SESSION_LIFETIME) else old(cache)
      ensures ok && sid in db ==> db[sid] == now + 604_800_000_000_000
      ensures ok && sid in cache ==> cache[sid].expiresAt == now + 604_800_000_000_000
      ensures Punctual(old(cache), cacheTTL, now) ==> Punctual(cache, cacheTTL, now)
    {
      var newExpiry := now + SESSION_LIFETIME;
      if !dbOk || (backend.Datastore? && sid !in db) {
        return false;
      }
      if sid in db {
        db := db[sid := newExpiry];
      }
      if sid in cache {
        cache := cache[sid := cache[sid].(expiresAt := newExpiry)];
      }
      ok := true;
    }

    method CleanupExpiredCache(now: int)
      modifies this`cache
      ensures cache == Pruned(old(cache), now)
    {
      var pending := cache.Keys;
      while pending != {}
        invariant pending <= old(cache).Keys
        invariant forall s :: s in cache <==> s in old(cache) && (s in pending || !(now > old(cache)[s].cacheExpires))
        invariant forall s :: s in cache ==> cache[s] == old(cache)[s]
      {
        var sid := AnyOf(pending);
        pending := pending - {sid};
        if now > cache[sid].cacheExpires {
          cache := cache - {sid};
        }
      }
      SamePruned(old(cache), cache, now);
    }

    method InvalidateCache()
      modifies this`cache
      ensures cache == map[]
    {
      cache := map[];
    }
  }

  // ---------------------------------------------------------------------------------------
  // Interleavings.
  // ---------------------------------------------------------------------------------------

  /** A call in flight, by what it does next. */
  datatype Call =
    | Looking(sid: string)                   // GetSession before the cache lookup
    | Reading(sid: string)                   // missed; before the database read
    | Storing(sid: string, expiresAt: int)   // read a live session; before the cache write
    | Deleting(sid: string)                  // before the database delete
    | Dropping(sid: string)                  // before removing the cache entry
    | Refreshing(sid: string, newExpiry: int)  // before the database update, or its read
    | Rewriting(sid: string, newExpiry: int)   // Datastore: row read; before it is put back
    | Touching(sid: string, newExpiry: int)    // before updating the cache entry
    | Finished

  /** What happened, for the record. */
  datatype Event =
    | DbRead(call: int, sid: string, at: int, expiresAt: int)
    | Stored(call: int, sid: string, at: int)
    | Served(sid: string, at: int)

  datatype State = State(
    db: map<string, int>, used: set<string>, cache: Cache, calls: map<int, Call>, now: int, log: seq<Event>)

  datatype Op =
    | Tick(now: int)
    | Create(sid: string, expiresAt: int)
    | Start(id: int, call: Call)
    | Lookup(id: int)
    | Read(id: int)
    | Fail(id: int)
    | Store(id: int)
    | DeleteRow(id: int, ok: bool)
    | Drop(id: int)
    | UpdateRow(id: int)              // SQLite: one UPDATE, also when no row is there
    | ReadRow(id: int)                // Datastore: read the row, fail if there is none
    | PutRow(id: int)                 // Datastore: put the row read before
    | Touch(id: int)
    | Prune
    | Clear
    | DeleteRows(sids: set<string>)   // the cron job: rows found expired now or a little earlier

  predicate StartsAt(call: Call, now: int) {
    call.Looking? || call.Deleting? || (call.Refreshing? && call.newExpiry == now + SESSION_LIFETIME)
  }

  /** A step of a call that may fail and end it. */
  predicate CanFail(call: Call) {
    call.Reading? || call.Storing? || call.Refreshing? || call.Rewriting?
  }

  predicate Enabled(s: State, op: Op) {
    match op
    case Tick(now) => now >= s.now
    case Create(sid, _) => sid !in s.used
    case Start(id, call) => id !in s.calls && StartsAt(call, s.now)
    case Lookup(id) => id in s.calls && s.calls[id].Looking?
    case Read(id) => id in s.calls && s.calls[id].Reading?
    case Fail(id) => id in s.calls && CanFail(s.calls[id])
    case Store(id) => id in s.calls && s.calls[id].Storing?
    case DeleteRow(id, _) => id in s.calls && s.calls[id].Deleting?
    case Drop(id) => id in s.calls && s.calls[id].Dropping?
    case UpdateRow(id) => id in s.calls && s.calls[id].Refreshing?
    case ReadRow(id) => id in s.calls && s.calls[id].Refreshing?
    case PutRow(id) => id in s.calls && s.calls[id].Rewriting?
    case Touch(id) => id in s.calls && s.calls[id].Touching?
    case Prune => true
    case Clear => true
    case DeleteRows(_) => true
  }

  function At(s: State, id: int, call: Call): State {
    s.(calls := s.calls[id := call])
  }

  function Apply(s: State, op: Op, ttl: int): State
    requires Enabled(s, op)
  {
    match op
    case Tick(now) => s.(now := now)
    case Create(sid, expiresAt) => s.(db := s.db[sid := expiresAt], used := s.used + {sid})
    case Start(id, call) => At(s, id, call)
    case Lookup(id) =>
      var sid := s.calls[id].sid;
      if Hit(s.cache, sid, s.now) then At(s, id, Finished).(log := s.log + [Served(sid, s.now)])
      else At(s, id, Reading(sid))
    case Read(id) =>
      var sid := s.calls[id].sid;
      if sid !in s.db then At(s, id, Finished)
      else if s.now > s.db[sid] then At(s, id, Deleting(sid))
      else At(s, id, Storing(sid, s.db[sid])).(log := s.log + [DbRead(id, sid, s.now, s.db[sid])])
    case Fail(id) => At(s, id, Finished)
    case Store(id) =>
      var call := s.calls[id];
      At(s, id, Finished).(cache := s.cache[call.sid := Entry(call.expiresAt, s.now + ttl)],
                           log := s.log + [Stored(id, call.sid, s.now)])
    case DeleteRow(id, ok) =>
      At(s, id, Dropping(s.calls[id].sid)).(db := if ok then s.db - {s.calls[id].sid} else s.db)
    case Drop(id) => At(s, id, Finished).(cache := s.cache - {s.calls[id].sid})
    case UpdateRow(id) =>
      var call := s.calls[id];
      At(s, id, Touching(call.sid, call.newExpiry)).(
        db := if call.sid in s.db then s.db[call.sid := call.newExpiry] else s.db)
    case ReadRow(id) =>
      var call := s.calls[id];
      At(s, id, if call.sid in s.db then Rewriting(call.sid, call.newExpiry) else Finished)
    case PutRow(id) =>
      var call := s.calls[id];
      At(s, id, Touching(call.sid, call.newExpiry)).(db := s.db[call.sid := call.newExpiry])
    case Touch(id) => At(s, id, Finished).(cache := Touched(s.cache, s.calls[id].sid, s.calls[id].newExpiry))
    case Prune => s.(cache := Pruned(s.cache, s.now))
    case Clear => s.(cache := map[])
    case DeleteRows(sids) => s.(db := s.db - sids)
  }

  function Init(db: map<string, int>, now: int): State {
    State(db, db.Keys, map[], map[], now, [])
  }

  ghost predicate IsRun(states: seq<State>, ops: seq<Op>, ttl: int) {
    && |states| == |ops| + 1
    && forall k :: 0 <= k < |ops| ==> Enabled(states[k], ops[k]) && states[k + 1] == Apply(states[k], ops[k], ttl)
  }

  /** A run with one more step in front. */
  lemma {:induction false} Prepend(s: State, op: Op, ttl: int, states0: seq<State>, ops0: seq<Op>)
    returns (states: seq<State>, ops: seq<Op>)
    requires Enabled(s, op) && IsRun(states0, ops0, ttl) && states0[0] == Apply(s, op, ttl)
    ensures IsRun(states, ops, ttl) && states[0] == s && states[|ops|] == states0[|ops0|]
  {
    states, ops := [s] + states0, [op] + ops0;
  }

  // Each call, run without interruption, does what the method of the class does.

  ghost predicate Leads(states: seq<State>, ops: seq<Op>, ttl: int, s: State, t: State) {
    IsRun(states, ops, ttl) && states[0] == s && states[|ops|] == t
  }

  lemma {:induction false} MissUninterrupted(s: State, id: int, sid: string, ttl: int, dbOk: bool, deleteOk: bool,
                                             userOk: bool)
    returns (states: seq<State>, ops: seq<Op>, t: State)
    requires id in s.calls && s.calls[id] == Reading(sid)
    ensures Leads(states, ops, ttl, s, t) && t.now == s.now
    ensures var live := dbOk && sid in s.db && s.now <= s.db[sid];
      var expired := dbOk && sid in s.db && s.now > s.db[sid];
      && t.cache == (if live && userOk then s.cache[sid := Entry(s.db[sid], s.now + ttl)]
                     else if expired then s.cache - {sid} else s.cache)
      && t.db == (if expired && deleteOk then s.db - {sid} else s.db)
      && t.log == s.log + (if !live then []
                           else [DbRead(id, sid, s.now, s.db[sid])] + if userOk then [Stored(id, sid, s.now)] else [])
  {
    if !dbOk {
      t := Apply(s, Fail(id), ttl);
      states, ops := [s, t], [Fail(id)];
    } else {
      var c := Apply(s, Read(id), ttl);
      if c.calls[id].Finished? {
        states, ops, t := [s, c], [Read(id)], c;
      } else if c.calls[id].Deleting? {
        var d := Apply(c, DeleteRow(id, deleteOk), ttl);
        t := Apply(d, Drop(id), ttl);
        states, ops := [s, c, d, t], [Read(id), DeleteRow(id, deleteOk), Drop(id)];
      } else {
        var last := if userOk then Store(id) else Fail(id);
        t := Apply(c, last, ttl);
        states, ops := [s, c, t], [Read(id), last];
      }
    }
  }

  lemma {:induction false} GetUninterrupted(s: State, id: int, sid: string, ttl: int, dbOk: bool, deleteOk: bool,
                                            userOk: bool)
    returns (states: seq<State>, ops: seq<Op>, t: State)
    requires id !in s.calls
    ensures Leads(states, ops, ttl, s, t) && t.now == s.now
    ensures var hit := sid in s.cache && s.now < s.cache[sid].cacheExpires;
      var live := dbOk && sid in s.db && s.now <= s.db[sid];
      var expired := dbOk && sid in s.db && s.now > s.db[sid];
      && t.cache == (if hit then s.cache else if live && userOk then s.cache[sid := Entry(s.db[sid], s.now + ttl)]
                     else if expired then s.cache - {sid} else s.cache)
      && t.db == (if !hit && expired && deleteOk then s.db - {sid} else s.db)
      && t.log == s.log + (if hit then [Served(sid, s.now)] else if !live then []
                           else [DbRead(id, sid, s.now, s.db[sid])] + if userOk then [Stored(id, sid, s.now)] else [])
  {
    var a := Apply(s, Start(id, Looking(sid)), ttl);
    var b := Apply(a, Lookup(id), ttl);
    if b.calls[id].Finished? {
      states, ops, t := [s, a, b], [Start(id, Looking(sid)), Lookup(id)], b;
    } else {
      states, ops, t := MissUninterrupted(b, id, sid, ttl, dbOk, deleteOk, userOk);
      states, ops := Prepend(a, Lookup(id), ttl, states, ops);
      states, ops := Prepend(s, Start(id, Looking(sid)), ttl, states, ops);
    }
  }

  lemma {:induction false} DeleteUninterrupted(s: State, id: int, sid: string, ttl: int, dbOk: bool)
    returns (states: seq<State>, ops: seq<Op>, t: State)
    requires id !in s.calls
    ensures Leads(states, ops, ttl, s, t) && t.now == s.now
    ensures t.db == (if dbOk then s.db - {sid} else s.db) && t.cache == s.cache - {sid}
  {
    var a := Apply(s, Start(id, Deleting(sid)), ttl);
    var b := Apply(a, DeleteRow(id, dbOk), ttl);
    t := Apply(b, Drop(id), ttl);
    states, ops := [s, a, b, t], [Start(id, Deleting(sid)), DeleteRow(id, dbOk), Drop(id)];
  }

  lemma {:induction false} UpdateUninterrupted(s: State, id: int, ttl: int, backend: Backend)
    returns (states: seq<State>, ops: seq<Op>, t: State)
    requires id in s.calls && s.calls[id].Refreshing?
    ensures Leads(states, ops, ttl, s, t) && t.now == s.now
    ensures var sid, expiry := s.calls[id].sid, s.calls[id].newExpiry;
      && t.db == (if sid in s.db then s.db[sid := expiry] else s.db)
      && t.cache == (if (backend.Datastore? ==> sid in s.db) && sid in s.cache
                     then s.cache[sid := Entry(expiry, s.cache[sid].cacheExpires)] else s.cache)
  {
    var b := Apply(s, if backend.Sqlite? then UpdateRow(id) else ReadRow(id), ttl);
    if b.calls[id].Finished? {
      states, ops, t := [s, b], [ReadRow(id)], b;
    } else if backend.Sqlite? {
      t := Apply(b, Touch(id), ttl);
      states, ops := [s, b, t], [UpdateRow(id), Touch(id)];
    } else {
      var c := Apply(b, PutRow(id), ttl);
      t := Apply(c, Touch(id), ttl);
      states, ops := [s, b, c, t], [ReadRow(id), PutRow(id), Touch(id)];
    }
  }

  lemma {:induction false} RefreshUninterrupted(s: State, id: int, sid: string, ttl: int, backend: Backend, dbOk: bool)
    returns (states: seq<State>, ops: seq<Op>, t: State)
    requires id !in s.calls
    ensures Leads(states, ops, ttl, s, t) && t.now == s.now
    ensures var expiry := s.now + 604_800_000_000_000;
      && t.db == (if dbOk && sid in s.db then s.db[sid := expiry] else s.db)
      && t.cache == (if dbOk && (backend.Datastore? ==> sid in s.db) && sid in s.cache
                     then s.cache[sid := Entry(expiry, s.cache[sid].cacheExpires)] else s.cache)
  {
    var start := Start(id, Refreshing(sid, s.now + SESSION_LIFETIME));
    var a := Apply(s, start, ttl);
    if !dbOk {
      t := Apply(a, Fail(id), ttl);
      states, ops := [s, a, t], [start, Fail(id)];
    } else {
      states, ops, t := UpdateUninterrupted(a, id, ttl, backend);
      states, ops := Prepend(s, start, ttl, states, ops);
    }
  }

  /** No call ever waits for another one: each in flight can take its next step at once. Sweeps and the
      removal of rows can come at any time. */
  lemma {:induction false} CallsNeverWait(s: State, id: int, ttl: int) returns (op: Op)
    requires id in s.calls && !s.calls[id].Finished?
    ensures Enabled(s, op) && Apply(s, op, ttl).calls[id] != s.calls[id] && !op.Fail?
    ensures Enabled(s, Prune) && Enabled(s, Clear) && forall sids :: Enabled(s, DeleteRows(sids))
  {
    op := match s.calls[id]
      case Looking(_) => Lookup(id)
      case Reading(_) => Read(id)
      case Storing(_, _) => Store(id)
      case Deleting(_) => DeleteRow(id, true)
      case Dropping(_) => Drop(id)
      case Refreshing(_, _) => UpdateRow(id)
      case Rewriting(_, _) => PutRow(id)
      case Touching(_, _) => Touch(id);
  }

  /** A refresh extends a session to seven days from its start, no more and no less. */
  lemma {:induction false} RefreshLastsAWeek(s: State, id: int, sid: string, newExpiry: int)
    requires id !in s.calls
    ensures Enabled(s, Start(id, Refreshing(sid, newExpiry))) <==> newExpiry == s.now + 604_800_000_000_000
  {
  }

  // ---------------------------------------------------------------------------------------
  // Where cached sessions come from.
  // ---------------------------------------------------------------------------------------

  /** log[i] is a database read of `sid` by `call` that found it present and not expired. */
  ghost predicate LiveRead(log: seq<Event>, i: int, call: int, sid: string) {
    0 <= i < |log| && log[i].DbRead? && log[i].call == call && log[i].sid == sid && log[i].at <= log[i].expiresAt
  }

  /** log[j] is the cache write, at time `at`, of a call that made such a read before. */
  ghost predicate WrittenAfterLiveRead(log: seq<Event>, j: int, sid: string, at: int) {
    && 0 <= j < |log| && log[j].Stored? && log[j].sid == sid && log[j].at == at
    && exists i :: i < j && LiveRead(log, i, log[j].call, sid) && log[i].at <= at
  }

  ghost predicate HasLiveRead(log: seq<Event>, call: int, sid: string, now: int) {
    exists i :: LiveRead(log, i, call, sid) && log[i].at <= now
  }

  ghost predicate HasWrite(log: seq<Event>, sid: string, at: int) {
    exists j :: WrittenAfterLiveRead(log, j, sid, at)
  }

  ghost predicate CallsRead(s: State) {
    forall id :: id in s.calls && s.calls[id].Storing? ==> HasLiveRead(s.log, id, s.calls[id].sid, s.now)
  }

  ghost predicate EntryWritten(log: seq<Event>, sid: string, e: Entry, now: int, ttl: int) {
    e.cacheExpires - ttl <= now && HasWrite(log, sid, e.cacheExpires - ttl)
  }

  ghost predicate CacheWritten(s: State, ttl: int) {
    forall sid :: sid in s.cache ==> EntryWritten(s.log, sid, s.cache[sid], s.now, ttl)
  }

  /** Event k serves a session written less than ttl before by a call that had read it alive. */
  ghost predicate ServedFresh(log: seq<Event>, k: int, ttl: int)
    requires 0 <= k < |log| && log[k].Served?
  {
    exists j, at :: j < k && WrittenAfterLiveRead(log, j, log[k].sid, at) && at <= log[k].at < at + ttl
  }

  ghost predicate AllServedFresh(log: seq<Event>, ttl: int) {
    forall k :: 0 <= k < |log| && log[k].Served? ==> ServedFresh(log, k, ttl)
  }

  ghost predicate Inv(s: State, ttl: int) {
    CallsRead(s) && CacheWritten(s, ttl) && AllServedFresh(s.log, ttl)
  }

  lemma {:induction false} WrittenExtends(log: seq<Event>, e: Event, j: int, sid: string, at: int)
    requires WrittenAfterLiveRead(log, j, sid, at)
    ensures WrittenAfterLiveRead(log + [e], j, sid, at)
  {
    var i :| i < j && LiveRead(log, i, log[j].call, sid) && log[i].at <= at;
    assert LiveRead(log + [e], i, (log + [e])[j].call, sid);
  }

  lemma {:induction false} HasWriteExtends(log: seq<Event>, e: Event, sid: string, at: int)
    requires HasWrite(log, sid, at)
    ensures HasWrite(log + [e], sid, at)
  {
    var j :| WrittenAfterLiveRead(log, j, sid, at);
    WrittenExtends(log, e, j, sid, at);
  }

  lemma {:induction false} HasLiveReadExtends(log: seq<Event>, e: Event, call: int, sid: string, now: int)
    requires HasLiveRead(log, call, sid, now)
    ensures HasLiveRead(log + [e], call, sid, now)
  {
    var i :| LiveRead(log, i, call, sid) && log[i].at <= now;
    assert LiveRead(log + [e], i, call, sid);
  }

  lemma {:induction false} AllServedFreshExtends(log: seq<Event>, e: Event, ttl: int)
    requires AllServedFresh(log, ttl)
    requires e.Served? ==> exists j, at :: WrittenAfterLiveRead(log, j, e.sid, at) && at <= e.at < at + ttl
    ensures AllServedFresh(log + [e], ttl)
  {
    var longer := log + [e];
    forall k | 0 <= k < |longer| && longer[k].Served? ensures ServedFresh(longer, k, ttl) {
      if k < |log| {
        assert ServedFresh(log, k, ttl);
        var j, at :| j < k && WrittenAfterLiveRead(log, j, log[k].sid, at) && at <= log[k].at < at + ttl;
        WrittenExtends(log, e, j, log[k].sid, at);
      } else {
        var j, at :| WrittenAfterLiveRead(log, j, e.sid, at) && at <= e.at < at + ttl;
        WrittenExtends(log, e, j, e.sid, at);
      }
    }
  }

  /** Appending an event keeps what is known about calls and cache entries that did not change. */
  lemma {:induction false} LogExtends(s: State, t: State, e: Event, ttl: int)
    requires Inv(s, ttl) && t.log == s.log + [e] && t.now == s.now
    requires forall id :: id in t.calls && t.calls[id].Storing? && !(id in s.calls && s.calls[id] == t.calls[id]) ==>
      HasLiveRead(t.log, id, t.calls[id].sid, t.now)
    requires forall sid :: sid in t.cache && !(sid in s.cache && s.cache[sid] == t.cache[sid]) ==>
      EntryWritten(t.log, sid, t.cache[sid], t.now, ttl)
    ensures CallsRead(t) && CacheWritten(t, ttl)
  {
    forall id | id in t.calls && t.calls[id].Storing?
      ensures HasLiveRead(t.log, id, t.calls[id].sid, t.now)
    {
      if id in s.calls && s.calls[id] == t.calls[id] {
        HasLiveReadExtends(s.log, e, id, s.calls[id].sid, s.now);
      }
    }
    forall sid | sid in t.cache ensures EntryWritten(t.log, sid, t.cache[sid], t.now, ttl) {
      if sid in s.cache && s.cache[sid] == t.cache[sid] {
        assert EntryWritten(s.log, sid, s.cache[sid], s.now, ttl);
        HasWriteExtends(s.log, e, sid, s.cache[sid].cacheExpires - ttl);
      }
    }
  }

  /** Without a new event, calls that are not about to store and entries whose deadline is old
      bring no new obligations. */
  lemma {:induction false} QuietKeepsInv(s: State, t: State, ttl: int)
    requires Inv(s, ttl) && t.log == s.log && t.now >= s.now
    requires forall id :: id in t.calls && t.calls[id].Storing? ==> id in s.calls && s.calls[id] == t.calls[id]
    requires forall sid :: sid in t.cache ==> sid in s.cache && t.cache[sid].cacheExpires == s.cache[sid].cacheExpires
    ensures Inv(t, ttl)
  {
    forall id | id in t.calls && t.calls[id].Storing? ensures HasLiveRead(t.log, id, t.calls[id].sid, t.now) {
      assert HasLiveRead(s.log, id, s.calls[id].sid, s.now);
      var i :| LiveRead(s.log, i, id, s.calls[id].sid) && s.log[i].at <= s.now;
    }
    forall sid | sid in t.cache ensures EntryWritten(t.log, sid, t.cache[sid], t.now, ttl) {
      assert EntryWritten(s.log, sid, s.cache[sid], s.now, ttl);
    }
  }

  lemma {:induction false} LookupKeepsInv(s: State, id: int, ttl: int)
    requires Inv(s, ttl) && Enabled(s, Lookup(id))
    ensures Inv(Apply(s, Lookup(id), ttl), ttl)
  {
    var sid := s.calls[id].sid;
    if Hit(s.cache, sid, s.now) {
      assert EntryWritten(s.log, sid, s.cache[sid], s.now, ttl);
      var at := s.cache[sid].cacheExpires - ttl;
      var j :| WrittenAfterLiveRead(s.log, j, sid, at);
      AllServedFreshExtends(s.log, Served(sid, s.now), ttl);
      LogExtends(s, Apply(s, Lookup(id), ttl), Served(sid, s.now), ttl);
    } else {
      QuietKeepsInv(s, Apply(s, Lookup(id), ttl), ttl);
    }
  }

  lemma {:induction false} ReadKeepsInv(s: State, id: int, ttl: int)
    requires Inv(s, ttl) && Enabled(s, Read(id))
    ensures Inv(Apply(s, Read(id), ttl), ttl)
  {
    var sid := s.calls[id].sid;
    var t := Apply(s, Read(id), ttl);
    if sid in s.db && !(s.now > s.db[sid]) {
      var e := DbRead(id, sid, s.now, s.db[sid]);
      AllServedFreshExtends(s.log, e, ttl);
      assert LiveRead(t.log, |s.log|, id, sid);
      LogExtends(s, t, e, ttl);
    } else {
      QuietKeepsInv(s, t, ttl);
    }
  }

  lemma {:induction false} StoreKeepsInv(s: State, id: int, ttl: int)
    requires Inv(s, ttl) && Enabled(s, Store(id))
    ensures Inv(Apply(s, Store(id), ttl), ttl)
  {
    var t := Apply(s, Store(id), ttl);
    var sid := s.calls[id].sid;
    var e := Stored(id, sid, s.now);
    assert HasLiveRead(s.log, id, sid, s.now);
    var i :| LiveRead(s.log, i, id, sid) && s.log[i].at <= s.now;
    assert LiveRead(t.log, i, t.log[|s.log|].call, sid);
    assert WrittenAfterLiveRead(t.log, |s.log|, sid, s.now);
    AllServedFreshExtends(s.log, e, ttl);
    LogExtends(s, t, e, ttl);
  }

  lemma {:induction false} StepKeepsInv(s: State, op: Op, ttl: int)
    requires Inv(s, ttl) && Enabled(s, op)
    ensures Inv(Apply(s, op, ttl), ttl)
  {
    match op
    case Lookup(id) => LookupKeepsInv(s, id, ttl);
    case Read(id) => ReadKeepsInv(s, id, ttl);
    case Store(id) => StoreKeepsInv(s, id, ttl);
    case _ => QuietKeepsInv(s, Apply(s, op, ttl), ttl);
  }

  /** Staleness is bounded in every interleaving: each session served from the cache was put there,
      less than the TTL before, by a call whose database read had found it present and unexpired. */
  lemma {:induction false} ServedSessionsWereLive(states: seq<State>, ops: seq<Op>, ttl: int, k: nat)
    requires IsRun(states, ops, ttl) && k < |states| && states[0] == Init(states[0].db, states[0].now)
    ensures Inv(states[k], ttl)
    ensures AllServedFresh(states[k].log, ttl)
  {
    if k > 0 {
      ServedSessionsWereLive(states, ops, ttl, k - 1);
      StepKeepsInv(states[k - 1], ops[k - 1], ttl);
    }
  }

  /** A cache write by a lookup whose session has not expired since it was read, or by a refresh whose
      new expiry is not before the entry was written. */
  predicate OnTime(s: State, op: Op, ttl: int)
    requires Enabled(s, op)
  {
    match op
    case Store(id) => s.now <= s.calls[id].expiresAt
    case Touch(id) =>
      var sid := s.calls[id].sid;
      sid in s.cache ==> s.cache[sid].cacheExpires - ttl <= s.calls[id].newExpiry
    case _ => true
  }

  /** Interleaved calls keep lateness below the TTL exactly as long as every cache write is on time. */
  lemma {:induction false} StepKeepsPunctualExactly(s: State, op: Op, ttl: int)
    requires Punctual(s.cache, ttl, s.now) && Enabled(s, op)
    ensures var t := Apply(s, op, ttl); Punctual(t.cache, ttl, t.now) <==> OnTime(s, op, ttl)
  {
    var t := Apply(s, op, ttl);
    if op.Store? {
      var sid := s.calls[op.id].sid;
      assert t.cache[sid].cacheExpires - ttl == s.now && t.cache[sid].expiresAt == s.calls[op.id].expiresAt;
    } else if op.Touch? && s.calls[op.id].sid in s.cache {
      var sid := s.calls[op.id].sid;
      assert t.cache[sid] == s.cache[sid].(expiresAt := s.calls[op.id].newExpiry);
    }
  }

  lemma {:induction false} OnTimeRunsStayPunctual(states: seq<State>, ops: seq<Op>, ttl: int, k: nat)
    requires IsRun(states, ops, ttl) && k < |states| && Punctual(states[0].cache, ttl, states[0].now)
    requires forall i :: 0 <= i < |ops| ==> OnTime(states[i], ops[i], ttl)
    ensures Punctual(states[k].cache, ttl, states[k].now)
  {
    if k > 0 {
      OnTimeRunsStayPunctual(states, ops, ttl, k - 1);
      StepKeepsPunctualExactly(states[k - 1], ops[k - 1], ttl);
    }
  }

  /** A write long after its read makes the lateness as long as one likes: read alive, kept waiting for
      `wait`, then stored and served. */
  lemma {:induction false} SlowStoreServesLate(s: State, id: int, ttl: int, wait: nat) returns (t: State)
    requires ttl > 0 && Enabled(s, Store(id)) && wait > 0
    ensures t == Apply(Apply(s, Tick(s.now + wait), ttl), Store(id), ttl)
    ensures var sid := s.calls[id].sid;
      s.now + wait > s.calls[id].expiresAt ==>
        ServedLate(t.cache, sid, t.now) && t.now - t.cache[sid].expiresAt == s.now + wait - s.calls[id].expiresAt
  {
    t := Apply(Apply(s, Tick(s.now + wait), ttl), Store(id), ttl);
  }

  /** Every session in the table, or about to be put back into it, has a used id. */
  ghost predicate UsesIds(s: State) {
    && s.db.Keys <= s.used
    && forall id :: id in s.calls && s.calls[id].Rewriting? ==> s.calls[id].sid in s.used
  }

  lemma {:induction false} StepUsesIds(s: State, op: Op, t: State, ttl: int)
    requires UsesIds(s) && Enabled(s, op) && t == Apply(s, op, ttl)
    ensures UsesIds(t) && s.used <= t.used
  {
  }

  lemma {:induction false} RunUsesIds(states: seq<State>, ops: seq<Op>, ttl: int, k: nat)
    requires IsRun(states, ops, ttl) && states[0] == Init(states[0].db, states[0].now) && k < |states|
    ensures UsesIds(states[k])
  {
    if k > 0 {
      RunUsesIds(states, ops, ttl, k - 1);
      StepUsesIds(states[k - 1], ops[k - 1], states[k], ttl);
    }
  }

  lemma {:induction false} UsedIdsStay(states: seq<State>, ops: seq<Op>, ttl: int, j: nat, k: nat)
    requires IsRun(states, ops, ttl) && states[0] == Init(states[0].db, states[0].now) && j <= k < |states|
    ensures states[j].used <= states[k].used
    decreases k
  {
    if j < k {
      UsedIdsStay(states, ops, ttl, j, k - 1);
      RunUsesIds(states, ops, ttl, k - 1);
      StepUsesIds(states[k - 1], ops[k - 1], states[k], ttl);
    }
  }

  /** Ids are never used twice: whatever has been in the table by some point of a run, no session is
      created under its id afterwards. */
  lemma {:induction false} IdsAreNotReused(states: seq<State>, ops: seq<Op>, ttl: int, j: nat, k: nat)
    requires IsRun(states, ops, ttl) && states[0] == Init(states[0].db, states[0].now) && j <= k < |states|
    ensures states[j].db.Keys <= states[k].used
    ensures k < |ops| && ops[k].Create? ==> ops[k].sid !in states[j].db
  {
    RunUsesIds(states, ops, ttl, j);
    UsedIdsStay(states, ops, ttl, j, k);
  }

  // ---------------------------------------------------------------------------------------
  // Deleted sessions.
  // ---------------------------------------------------------------------------------------

  /** A finished read of the session that its call has yet to write somewhere: into the cache, or
      back into the table with a new expiry. */
  predicate HoldsRead(call: Call, sid: string) {
    (call.Storing? || call.Rewriting?) && call.sid == sid
  }

  ghost predicate NoReadHeld(s: State, sid: string) {
    forall id :: id in s.calls ==> !HoldsRead(s.calls[id], sid)
  }

  /** Nothing is left that could bring the session back. */
  ghost predicate Gone(s: State, sid: string) {
    sid in s.used && sid !in s.db && sid !in s.cache && NoReadHeld(s, sid)
  }

  /** Since then, no GetSession call has returned the session from the cache. */
  ghost predicate NotServed(log: seq<Event>, since: nat, sid: string) {
    forall k :: since <= k < |log| ==> !(log[k].Served? && log[k].sid == sid)
  }

  /** Nor has one returned it after a database read: none has at all. */
  ghost predicate NotReturned(log: seq<Event>, since: nat, sid: string) {
    forall k :: since <= k < |log| ==> !((log[k].Served? || log[k].Stored?) && log[k].sid == sid)
  }

  lemma {:induction false} GoneStaysGone(s: State, op: Op, t: State, ttl: int, sid: string)
    requires Gone(s, sid) && Enabled(s, op) && t == Apply(s, op, ttl)
    ensures Gone(t, sid) && s.log <= t.log && NotReturned(t.log, |s.log|, sid)
  {
  }

  lemma {:induction false} NotReturnedExtends(first: seq<Event>, log: seq<Event>, longer: seq<Event>, sid: string)
    requires first <= log <= longer && NotReturned(log, |first|, sid) && NotReturned(longer, |log|, sid)
    ensures first <= longer && NotReturned(longer, |first|, sid)
  {
  }

  lemma {:induction false} NotReturnedNotServed(log: seq<Event>, since: nat, sid: string)
    requires NotReturned(log, since, sid)
    ensures NotServed(log, since, sid)
  {
  }

  /** It was gone at s, is gone at t, and no call returned it in between. */
  ghost predicate GoneSince(s: State, t: State, sid: string) {
    Gone(t, sid) && s.log <= t.log && NotReturned(t.log, |s.log|, sid)
  }

  lemma {:induction false} StepKeepsGone(first: State, s: State, op: Op, t: State, ttl: int, sid: string)
    requires GoneSince(first, s, sid) && Enabled(s, op) && t == Apply(s, op, ttl)
    ensures GoneSince(first, t, sid)
  {
    GoneStaysGone(s, op, t, ttl, sid);
    NotReturnedExtends(first.log, s.log, t.log, sid);
  }

  lemma {:induction false} GoneNow(s: State, sid: string)
    requires Gone(s, sid)
    ensures GoneSince(s, s, sid)
  {
  }

  lemma {:induction false} RunKeepsGone(states: seq<State>, ops: seq<Op>, ttl: int, sid: string, first: State, k: nat)
    requires IsRun(states, ops, ttl) && k < |ops| && GoneSince(first, states[k], sid)
    ensures GoneSince(first, states[k + 1], sid)
  {
    StepKeepsGone(first, states[k], ops[k], states[k + 1], ttl, sid);
  }

  lemma {:induction false} GoneForGood(states: seq<State>, ops: seq<Op>, ttl: int, sid: string, from: nat, k: nat)
    requires IsRun(states, ops, ttl) && from <= k < |states| && Gone(states[from], sid)
    ensures GoneSince(states[from], states[k], sid)
    decreases k
  {
    if from < k {
      GoneForGood(states, ops, ttl, sid, from, k - 1);
      RunKeepsGone(states, ops, ttl, sid, states[from], k - 1);
    } else {
      GoneNow(states[k], sid);
    }
  }

  /** A call between its database read and its cache write can serve a session deleted meanwhile. */
  lemma {:induction false} InFlightReadRevives(s: State, ttl: int, sid: string, id: int, newId: int)
    returns (states: seq<State>, ops: seq<Op>)
    requires ttl > 0 && id in s.calls && s.calls[id].Storing? && s.calls[id].sid == sid
    requires newId !in s.calls && newId != id
    ensures IsRun(states, ops, ttl) && states[0] == s
    ensures s.log <= states[|ops|].log && !NotServed(states[|ops|].log, |s.log|, sid)
  {
    var a := Apply(s, Store(id), ttl);
    var b := Apply(a, Start(newId, Looking(sid)), ttl);
    var c := Apply(b, Lookup(newId), ttl);
    states, ops := [s, a, b, c], [Store(id), Start(newId, Looking(sid)), Lookup(newId)];
    assert c.log == a.log + [Served(sid, s.now)] && c.log[|a.log|] == Served(sid, s.now);
  }

  /** A session that is in the table unexpired can be looked up, and then served from the cache. */
  lemma {:induction false} ReadableIsServed(s: State, ttl: int, sid: string, newId: int)
    returns (states: seq<State>, ops: seq<Op>)
    requires ttl > 0 && sid in s.db && s.now <= s.db[sid] && sid !in s.cache
    requires newId !in s.calls && newId + 1 !in s.calls
    ensures IsRun(states, ops, ttl) && states[0] == s
    ensures s.log <= states[|ops|].log && !NotServed(states[|ops|].log, |s.log|, sid)
  {
    var a := Apply(s, Start(newId, Looking(sid)), ttl);
    var b := Apply(a, Lookup(newId), ttl);
    var c := Apply(b, Read(newId), ttl);
    states, ops := InFlightReadRevives(c, ttl, sid, newId, newId + 1);
    states, ops := Prepend(b, Read(newId), ttl, states, ops);
    states, ops := Prepend(a, Lookup(newId), ttl, states, ops);
    states, ops := Prepend(s, Start(newId, Looking(sid)), ttl, states, ops);
  }

  /** On Datastore, a refresh between reading and putting its row brings a session deleted meanwhile
      back into the table; refreshed once more, whatever the clock says, it is served again. */
  lemma {:induction false} InFlightRefreshRevives(s: State, ttl: int, sid: string, id: int, newId: int)
    returns (states: seq<State>, ops: seq<Op>)
    requires ttl > 0 && id in s.calls && s.calls[id].Rewriting? && s.calls[id].sid == sid && sid !in s.cache
    requires newId !in s.calls && newId + 1 !in s.calls && newId + 2 !in s.calls
    ensures IsRun(states, ops, ttl) && states[0] == s
    ensures s.log <= states[|ops|].log && !NotServed(states[|ops|].log, |s.log|, sid)
  {
    var refresh := Refreshing(sid, s.now + SESSION_LIFETIME);
    var a := Apply(s, PutRow(id), ttl);
    var b := Apply(a, Start(newId, refresh), ttl);
    var c := Apply(b, ReadRow(newId), ttl);
    var d := Apply(c, PutRow(newId), ttl);
    states, ops := ReadableIsServed(d, ttl, sid, newId + 1);
    states, ops := Prepend(c, PutRow(newId), ttl, states, ops);
    states, ops := Prepend(b, ReadRow(newId), ttl, states, ops);
    states, ops := Prepend(a, Start(newId, refresh), ttl, states, ops);
    states, ops := Prepend(s, PutRow(id), ttl, states, ops);
  }

  /** No run from s serves the session any more. */
  ghost predicate NeverServedAgain(s: State, ttl: int, sid: string) {
    forall states: seq<State>, ops: seq<Op>, k: int ::
      IsRun(states, ops, ttl) && 0 <= k < |states| && states[0] == s ==>
        NotServed(states[k].log, |s.log|, sid)
  }

  lemma {:induction false} HeldReadRevives(s: State, ttl: int, sid: string, id: int)
    requires ttl > 0 && sid !in s.cache && id in s.calls && HoldsRead(s.calls[id], sid)
    ensures !NeverServedAgain(s, ttl, sid)
  {
    var newId := FreshId(s.calls.Keys);
    var states, ops;
    if s.calls[id].Storing? {
      states, ops := InFlightReadRevives(s, ttl, sid, id, newId);
    } else {
      states, ops := InFlightRefreshRevives(s, ttl, sid, id, newId);
    }
    assert 0 <= |ops| < |states|;
  }

  /** When a delete is final: after the cache entry of a session that is no longer in the table has
      been dropped, no run ever serves the session again exactly if no call holds a finished read
      of it, be it a lookup about to fill the cache or a Datastore refresh about to put its row. */
  lemma {:induction false} DeleteIsFinalExactly(s: State, id: int, ttl: int)
    requires ttl > 0 && Enabled(s, Drop(id))
    requires s.calls[id].sid !in s.db && s.calls[id].sid in s.used
    ensures var sid := s.calls[id].sid; var t := Apply(s, Drop(id), ttl);
      NoReadHeld(t, sid) <==> NeverServedAgain(t, ttl, sid)
  {
    var sid := s.calls[id].sid;
    var t := Apply(s, Drop(id), ttl);
    if NoReadHeld(t, sid) {
      forall states: seq<State>, ops: seq<Op>, k: int
        | IsRun(states, ops, ttl) && 0 <= k < |states| && states[0] == t
        ensures NotServed(states[k].log, |t.log|, sid)
      {
        GoneForGood(states, ops, ttl, sid, 0, k);
        NotReturnedNotServed(states[k].log, |t.log|, sid);
      }
    } else {
      var c :| c in t.calls && HoldsRead(t.calls[c], sid);
      HeldReadRevives(t, ttl, sid, c);
    }
  }

  /** Without other calls in flight a successful delete is final: no later lookup succeeds, from the
      cache or from the table. */
  lemma {:induction false} SequentialDeleteIsFinal(s: State, id: int, ttl: int, states: seq<State>,
                                                   ops: seq<Op>, k: nat)
    requires Enabled(s, DeleteRow(id, true)) && s.calls[id].sid in s.used
    requires forall c :: c in s.calls && c != id ==> s.calls[c].Finished?
    requires IsRun(states, ops, ttl) && 2 <= k < |states| && states[0] == s
    requires ops[0] == DeleteRow(id, true) && ops[1] == Drop(id)
    ensures NotReturned(states[k].log, |s.log|, s.calls[id].sid)
  {
    assert states[1] == Apply(s, DeleteRow(id, true), ttl);
    assert states[2] == Apply(states[1], Drop(id), ttl);
    assert states[2].log == s.log;
    GoneForGood(states, ops, ttl, s.calls[id].sid, 2, k);
  }
}
