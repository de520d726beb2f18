/** Per-domain rate limiters: the class with its lock sections, and every interleaving of lookups
    and cleanups. A limiter object is represented by a number; new objects get new numbers. */
module DomainLimiter {
  import opened Collections

  const CLEANUP_IDLE_THRESHOLD: int := 3600 * 1_000_000_000

  datatype Tables = Tables(limiters: map<string, int>, lastAccessed: map<string, int>, nextLimiter: int) {
    /** A domain with a limiter has a recorded access, and limiter objects are not shared. */
    ghost predicate Valid() {
      && limiters.Keys <= lastAccessed.Keys
      && (forall d :: d in limiters ==> limiters[d] < nextLimiter)
      && (forall d, e :: d in limiters && e in limiters && limiters[d] == limiters[e] ==> d == e)
    }

    function Touched(domain: string, now: int): Tables {
      this.(lastAccessed := lastAccessed[domain := now])
    }

    /** The second lock section of a lookup that found no limiter at first. */
    function Ensured(domain: string, now: int): Tables {
      if domain in limiters then Touched(domain, now)
      else Tables(limiters[domain := nextLimiter], lastAccessed[domain := now], nextLimiter + 1)
    }

    predicate Idle(domain: string, now: int) {
      domain in lastAccessed && lastAccessed[domain] < now - CLEANUP_IDLE_THRESHOLD
    }

    function Cleaned(now: int): Tables {
      Tables(map d | d in limiters && !Idle(d, now) :: limiters[d],
             map d | d in lastAccessed && !Idle(d, now) :: lastAccessed[d], nextLimiter)
    }
  }

  lemma {:induction false} SameCleaned(before: Tables, after: Tables, now: int)
    requires before.nextLimiter == after.nextLimiter
    requires forall d :: d in after.lastAccessed <==> d in before.lastAccessed && !before.Idle(d, now)
    requires forall d :: d in after.limiters <==> d in before.limiters && !before.Idle(d, now)
    requires forall d :: d in after.lastAccessed ==> after.lastAccessed[d] == before.lastAccessed[d]
    requires forall d :: d in after.limiters ==> after.limiters[d] == before.limiters[d]
    ensures after == before.Cleaned(now)
  {
    var cleaned := before.Cleaned(now);
    forall d | d in after.limiters ensures after.limiters[d] == cleaned.limiters[d] {
    }
    forall d | d in after.lastAccessed ensures after.lastAccessed[d] == cleaned.lastAccessed[d] {
    }
    SameMap(after.limiters, cleaned.limiters);
    SameMap(after.lastAccessed, cleaned.lastAccessed);
  }

  class DomainRateLimiter {
    var limiters: map<string, int>
    var lastAccessed: map<string, int>
    var nextLimiter: int

    ghost function State(): Tables
      reads this
    {
      Tables(limiters, lastAccessed, nextLimiter)
    }

    constructor ()
      ensures State() == Tables(map[], map[], 0) && State().Valid()
    {
      limiters, lastAccessed, nextLimiter := map[], map[], 0;
    }

    /** The read-locked section of a lookup. */
    method FindLimiter(domain: string) returns (limiter: int, found: bool)
      ensures found <==> domain in limiters
      ensures found ==> limiter == limiters[domain]
    {
      found := domain in limiters;
      limiter := if found then limiters[domain] else 0;
    }

    /** The write-locked section after a limiter was found. */
    method RecordAccess(domain: string, now: int)
      modifies this`lastAccessed
      ensures State() == old(State()).Touched(domain, now)
    {
      lastAccessed := lastAccessed[domain := now];
    }

    /** The write-locked section after none was found: another lookup may have created it since. */
    method CreateLimiter(domain: string, now: int) returns (limiter: int)
      requires State().Valid()
      modifies this
      ensures State() == old(State()).Ensured(domain, now) && State().Valid()
      ensures domain in limiters && limiter == limiters[domain]
    {
      if domain in limiters {
        lastAccessed := lastAccessed[domain := now];
        return limiters[domain];
      }
      limiter := nextLimiter;
      nextLimiter := nextLimiter + 1;
      limiters := limiters[domain := limiter];
      lastAccessed := lastAccessed[domain := now];
    }

    /** A lookup run without interruption: one limiter per domain, and the access is recorded. */
    method GetLimiterForDomain(domain: string, now: int) returns (limiter: int)
      requires State().Valid()
      modifies this
      ensures State() == old(State()).Ensured(domain, now) && State().Valid()
      ensures domain in limiters && limiter == limiters[domain]
      ensures domain in old(limiters) ==> limiter == old(limiters)[domain]
    {
      var found;
      limiter, found := FindLimiter(domain);
      if found {
        RecordAccess(domain, now);
        return;
      }
      limiter := CreateLimiter(domain, now);
    }

    /** The sweep ranges over the access times in any order. It evicts exactly the domains whose
        recorded access is older than the threshold. */
    method CleanupOldLimiters(now: int)
      requires State().Valid()
      modifies this`limiters, this`lastAccessed
      ensures State() == old(State()).Cleaned(now) && State().Valid()
      ensures forall d :: d in old(limiters) && d !in limiters ==> old(lastAccessed)[d] < now - CLEANUP_IDLE_THRESHOLD
    {
      ghost var before := State();
      var cutoff := now - CLEANUP_IDLE_THRESHOLD;
      var pending := lastAccessed.Keys;
      while pending != {}
        invariant pending <= before.lastAccessed.Keys
        invariant forall d :: d in lastAccessed <==> d in before.lastAccessed && (d in pending || !before.Idle(d, now))
        invariant forall d :: d in limiters <==> d in before.limiters && (d in pending || !before.Idle(d, now))
        invariant forall d :: d in lastAccessed ==> lastAccessed[d] == before.lastAccessed[d]
        invariant forall d :: d in limiters ==> limiters[d] == before.limiters[d]
      {
        var domain := AnyOf(pending);
        pending := pending - {domain};
        if lastAccessed[domain] < cutoff {
          limiters := limiters - {domain};
          lastAccessed := lastAccessed - {domain};
        }
      }
      SameCleaned(before, State(), now);
    }
  }

  // ---------------------------------------------------------------------------------------
  // Interleavings of lookups and cleanups.
  // ---------------------------------------------------------------------------------------

  /** A lookup, by what it does next. */
  datatype Lookup =
    | Checking(domain: string)
    | Touching(domain: string, limiter: int)   // found a limiter; before recording the access
    | Creating(domain: string)                 // found none; before the write-locked section
    | Finished

  datatype Return = Return(domain: string, limiter: int)

  datatype State = State(tables: Tables, lookups: map<int, Lookup>, now: int, handed: seq<Return>)

  datatype Op =
    | Tick(now: int)
    | Start(id: int, domain: string)
    | Check(id: int)
    | Touch(id: int)
    | Create(id: int)
    | Cleanup

  predicate Enabled(s: State, op: Op) {
    match op
    case Tick(now) => now >= s.now
    case Start(id, _) => id !in s.lookups
    case Check(id) => id in s.lookups && s.lookups[id].Checking?
    case Touch(id) => id in s.lookups && s.lookups[id].Touching?
    case Create(id) => id in s.lookups && s.lookups[id].Creating?
    case Cleanup => true
  }

  function Apply(s: State, op: Op): State
    requires Enabled(s, op)
  {
    match op
    case Tick(now) => s.(now := now)
    case Start(id, domain) => s.(lookups := s.lookups[id := Checking(domain)])
    case Check(id) =>
      var d := s.lookups[id].domain;
      s.(lookups := s.lookups[id := if d in s.tables.limiters then Touching(d, s.tables.limiters[d]) else Creating(d)])
    case Touch(id) =>
      var l := s.lookups[id];
      State(s.tables.Touched(l.domain, s.now), s.lookups[id := Finished], s.now,
            s.handed + [Return(l.domain, l.limiter)])
    case Create(id) =>
      var d := s.lookups[id].domain;
      var t := s.tables.Ensured(d, s.now);
      State(t, s.lookups[id := Finished], s.now, s.handed + [Return(d, t.limiters[d])])
    case Cleanup => s.(tables := s.tables.Cleaned(s.now))
  }

  function Init(now: int): State {
    State(Tables(map[], map[], 0), map[], now, [])
  }

  ghost predicate IsRun(states: seq<State>, ops: seq<Op>) {
    && |states| == |ops| + 1
    && forall k :: 0 <= k < |ops| ==> Enabled(states[k], ops[k]) && states[k + 1] == Apply(states[k], ops[k])
  }

  ghost predicate Inv(s: State) {
    && s.tables.Valid()
    && forall id :: id in s.lookups && s.lookups[id].Touching? ==> s.lookups[id].limiter < s.tables.nextLimiter
  }

  lemma {:induction false} StepKeepsInv(s: State, op: Op)
    requires Inv(s) && Enabled(s, op)
    ensures Inv(Apply(s, op))
  {
  }

  /** In every reachable state each domain with a limiter has a last-access entry, and no two domains
      share a limiter. */
  lemma {:induction false} RunKeepsInv(states: seq<State>, ops: seq<Op>, k: nat)
    requires IsRun(states, ops) && k < |states| && states[0] == Init(states[0].now)
    ensures Inv(states[k])
    ensures states[k].tables.limiters.Keys <= states[k].tables.lastAccessed.Keys
    ensures forall d, e :: d in states[k].tables.limiters && e in states[k].tables.limiters && d != e ==>
      states[k].tables.limiters[d] != states[k].tables.limiters[e]
  {
    if k > 0 {
      RunKeepsInv(states, ops, k - 1);
      StepKeepsInv(states[k - 1], ops[k - 1]);
    }
  }

  /** A step that leaves the domain's limiter in place, if it has one. */
  predicate Spares(s: State, op: Op, domain: string)
    requires Enabled(s, op)
  {
    domain in s.tables.limiters ==> domain in Apply(s, op).tables.limiters
  }

  ghost predicate IsSparingRun(states: seq<State>, ops: seq<Op>, domain: string) {
    IsRun(states, ops) && forall k :: 0 <= k < |ops| ==> Spares(states[k], ops[k], domain)
  }

  /** Every lookup of the domain that has found a limiter found the current one. */
  ghost predicate Settled(s: State, domain: string) {
    forall id :: id in s.lookups && s.lookups[id].Touching? && s.lookups[id].domain == domain ==>
      domain in s.tables.limiters && s.lookups[id].limiter == s.tables.limiters[domain]
  }

  /** What was returned for the domain since position `from` is its current limiter. */
  ghost predicate ReturnsCurrent(s: State, domain: string, from: nat) {
    forall k :: from <= k < |s.handed| && s.handed[k].domain == domain ==>
      domain in s.tables.limiters && s.handed[k].limiter == s.tables.limiters[domain]
  }

  lemma {:induction false} StepKeepsSettled(s: State, op: Op, domain: string, from: nat)
    requires Inv(s) && Enabled(s, op) && Spares(s, op, domain)
    requires Settled(s, domain) && ReturnsCurrent(s, domain, from)
    ensures Settled(Apply(s, op), domain) && ReturnsCurrent(Apply(s, op), domain, from)
  {
  }

  lemma {:induction false} SparingRunKeepsSettled(states: seq<State>, ops: seq<Op>, domain: string, k: nat)
    requires IsSparingRun(states, ops, domain) && k < |states| && Inv(states[0]) && Settled(states[0], domain)
    ensures Inv(states[k]) && Settled(states[k], domain)
    ensures ReturnsCurrent(states[k], domain, |states[0].handed|)
  {
    if k > 0 {
      SparingRunKeepsSettled(states, ops, domain, k - 1);
      StepKeepsInv(states[k - 1], ops[k - 1]);
      StepKeepsSettled(states[k - 1], ops[k - 1], domain, |states[0].handed|);
    }
  }

  /** All limiters returned for the domain from position `from` on are the same object. */
  ghost predicate OneLimiter(s: State, domain: string, from: nat) {
    forall i, j :: from <= i < j < |s.handed| && s.handed[i].domain == domain && s.handed[j].domain == domain ==>
      s.handed[i].limiter == s.handed[j].limiter
  }

  /** A lookup holding an older limiter returns it, and a later lookup returns another one. */
  lemma {:induction false} StaleLookupSplits(s: State, domain: string, id: int,
                                             newId: int) returns (states: seq<State>, ops: seq<Op>)
    requires Inv(s) && newId !in s.lookups && id in s.lookups
    requires s.lookups[id].Touching? && s.lookups[id].domain == domain
    requires !(domain in s.tables.limiters && s.lookups[id].limiter == s.tables.limiters[domain])
    ensures IsSparingRun(states, ops, domain) && states[0] == s
    ensures !OneLimiter(states[|ops|], domain, |s.handed|)
  {
    var a := Apply(s, Touch(id));
    var b := Apply(a, Start(newId, domain));
    var c := Apply(b, Check(newId));
    var last := if domain in s.tables.limiters then Touch(newId) else Create(newId);
    var d := Apply(c, last);
    states, ops := [s, a, b, c, d], [Touch(id), Start(newId, domain), Check(newId), last];
    var n := |s.handed|;
    assert d.handed[n] == Return(domain, s.lookups[id].limiter) && |d.handed| == n + 2;
    assert d.handed[n + 1].limiter != d.handed[n].limiter;
  }

  /** When lookups of a domain agree: they all return one limiter object for as long as cleanup
      does not evict the domain, exactly if no lookup in flight still holds an older one. This is so
      at the start, so concurrent first lookups share their limiter. */
  lemma {:induction false} LookupsAgreeExactly(s: State, domain: string)
    requires Inv(s)
    ensures Settled(s, domain)
       <==> (forall states: seq<State>, ops: seq<Op>, k: int ::
               IsSparingRun(states, ops, domain) && 0 <= k < |states| && states[0] == s ==>
                 OneLimiter(states[k], domain, |s.handed|))
  {
    if Settled(s, domain) {
      forall states: seq<State>, ops: seq<Op>, k: int
        | IsSparingRun(states, ops, domain) && 0 <= k < |states| && states[0] == s
        ensures OneLimiter(states[k], domain, |s.handed|)
      {
        SparingRunKeepsSettled(states, ops, domain, k);
      }
    } else {
      var id :| id in s.lookups && s.lookups[id].Touching? && s.lookups[id].domain == domain
        && !(domain in s.tables.limiters && s.lookups[id].limiter == s.tables.limiters[domain]);
      var newId := FreshId(s.lookups.Keys);
      var states, ops := StaleLookupSplits(s, domain, id, newId);
      assert 0 <= |ops| < |states|;
    }
  }

  /** Cleanup evicts a domain exactly when its recorded access is older than the threshold. */
  lemma {:induction false} CleanupEvictsIdleOnly(s: State, domain: string)
    requires Inv(s) && domain in s.tables.limiters
    ensures domain !in Apply(s, Cleanup).tables.limiters
       <==> s.tables.lastAccessed[domain] < s.now - CLEANUP_IDLE_THRESHOLD
  {
  }

  /** An access protects the domain for one hour, exactly: a later cleanup keeps its limiter if and only
      if at most 3600 seconds have passed. It keeps the others as if nothing had been accessed. */
  lemma {:induction false} AccessProtectsForAnHour(t: Tables, domain: string, now: int, later: int)
    ensures var kept := t.Ensured(domain, now).Cleaned(later).limiters;
      && (domain in kept <==> later - now <= 3_600_000_000_000)
      && (domain in kept && domain in t.limiters ==> kept[domain] == t.limiters[domain])
      && forall e :: e != domain ==>
           (e in kept <==> e in t.Cleaned(later).limiters) && (e in kept ==> kept[e] == t.limiters[e])
    ensures var kept := t.Touched(domain, now).Cleaned(later).limiters;
      domain in t.limiters ==> (domain in kept <==> later - now <= 3_600_000_000_000)
  {
  }

  /** Step i records an access of the domain. */
  ghost predicate Accesses(states: seq<State>, ops: seq<Op>, i: nat, domain: string)
    requires IsRun(states, ops) && i < |ops|
  {
    match ops[i]
    case Touch(id) => states[i].lookups[id].domain == domain
    case Create(id) => states[i].lookups[id].domain == domain
    case _ => false
  }

  lemma {:induction false} TimePasses(states: seq<State>, ops: seq<Op>, i: nat, k: nat)
    requires IsRun(states, ops) && i <= k < |states|
    ensures states[i].now <= states[k].now
    decreases k
  {
    if i < k {
      TimePasses(states, ops, i, k - 1);
      assert Enabled(states[k - 1], ops[k - 1]) && states[k] == Apply(states[k - 1], ops[k - 1]);
    }
  }

  lemma {:induction false} StepKeepsRecent(s: State, op: Op, domain: string, at: int)
    requires Enabled(s, op) && at <= s.now && s.now - at <= CLEANUP_IDLE_THRESHOLD
    requires domain in s.tables.limiters && domain in s.tables.lastAccessed && at <= s.tables.lastAccessed[domain]
    ensures var t := Apply(s, op).tables;
      && domain in t.limiters && t.limiters[domain] == s.tables.limiters[domain]
      && domain in t.lastAccessed && at <= t.lastAccessed[domain]
  {
  }

  /** In every interleaving: from the moment an access of a domain is recorded, its limiter is neither
      evicted nor replaced for one hour. */
  lemma {:induction false} RecentlyUsedSurvives(states: seq<State>, ops: seq<Op>, i: nat, k: nat, domain: string)
    requires IsRun(states, ops) && i < k < |states| && Accesses(states, ops, i, domain)
    requires domain in states[i + 1].tables.limiters && states[k].now - states[i].now <= 3_600_000_000_000
    ensures domain in states[k].tables.limiters
    ensures states[k].tables.limiters[domain] == states[i + 1].tables.limiters[domain]
    ensures domain in states[k].tables.lastAccessed && states[i].now <= states[k].tables.lastAccessed[domain]
    decreases k
  {
    if k == i + 1 {
      assert states[k] == Apply(states[i], ops[i]);
    } else {
      TimePasses(states, ops, i, k - 1);
      TimePasses(states, ops, k - 1, k);
      RecentlyUsedSurvives(states, ops, i, k - 1, domain);
      StepKeepsRecent(states[k - 1], ops[k - 1], domain, states[i].now);
    }
  }
}
