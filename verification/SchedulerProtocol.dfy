/** Processing a schedule: one dispatching goroutine, a semaphore channel, a wait group and one
    worker goroutine per feed, as a state machine whose steps interleave freely. */
module SchedulerProtocol {
  import opened Collections
  import opened FeedSchedule

  /** A worker holds its semaphore slot while Working and Counted; it gives the slot back before it
      reports to the wait group. */
  datatype Phase = Working | Counted | Released | Done

  /** The dispatcher: at the loop head; asleep until a feed is due; waiting for a slot; holding a
      slot for a worker about to start; waiting for the workers; returned. */
  datatype Main = Head | Sleeping | Acquiring | Spawning | Joining | Returned(stopped: bool)

  datatype State = State(
    main: Main, sem: nat, wg: nat, workers: seq<Phase>, checked: nat, skipped: nat,
    stop: bool, now: int, dispatchedAt: seq<int>)

  datatype Op =
    | Tick(now: int)
    | StopSignal
    | Look                      // loop head: enough work, and is it due?
    | Wake                      // the timer fires
    | Abort                     // the stop channel is chosen in a select
    | Acquire
    | Spawn
    | Finish(i: nat, checked: bool)   // the worker counts its feed as checked or skipped
    | Release(i: nat)
    | Report(i: nat)
    | Join

  function Init(now: int): State {
    State(Head, 0, 0, [], 0, 0, false, now, [])
  }

  predicate Due(schedule: seq<ScheduledFeed>, s: State) {
    |s.workers| < |schedule| && s.now >= schedule[|s.workers|].nextUpdate
  }

  predicate Enabled(schedule: seq<ScheduledFeed>, cap: nat, s: State, op: Op) {
    match op
    case Tick(now) => now >= s.now
    case StopSignal => !s.stop
    case Look => s.main == Head
    case Wake => s.main == Sleeping && Due(schedule, s)
    case Abort => s.stop && (s.main == Sleeping || s.main == Acquiring)
    case Acquire => s.main == Acquiring && s.sem < cap
    case Spawn => s.main == Spawning
    case Finish(i, _) => i < |s.workers| && s.workers[i] == Working
    case Release(i) => i < |s.workers| && s.workers[i] == Counted && s.sem > 0
    case Report(i) => i < |s.workers| && s.workers[i] == Released && s.wg > 0
    case Join => s.main == Joining && s.wg == 0
  }

  function Apply(schedule: seq<ScheduledFeed>, cap: nat, s: State, op: Op): State
    requires Enabled(schedule, cap, s, op)
  {
    match op
    case Tick(now) => s.(now := now)
    case StopSignal => s.(stop := true)
    case Look =>
      s.(main := if |s.workers| >= |schedule| then Joining else if Due(schedule, s) then Acquiring else Sleeping)
    case Wake => s.(main := Acquiring)
    case Abort => s.(main := Returned(true))
    case Acquire => s.(main := Spawning, sem := s.sem + 1)
    case Spawn =>
      s.(main := Head, wg := s.wg + 1, workers := s.workers + [Working], dispatchedAt := s.dispatchedAt + [s.now])
    case Finish(i, checked) =>
      s.(workers := s.workers[i := Counted],
         checked := if checked then s.checked + 1 else s.checked,
         skipped := if checked then s.skipped else s.skipped + 1)
    case Release(i) => s.(workers := s.workers[i := Released], sem := s.sem - 1)
    case Report(i) => s.(workers := s.workers[i := Done], wg := s.wg - 1)
    case Join => s.(main := Returned(false))
  }

  // ---------------------------------------------------------------------------------------
  // Counting workers.
  // ---------------------------------------------------------------------------------------

  function Count(ws: seq<Phase>, p: Phase): nat {
    if ws == [] then 0 else Count(ws[..|ws| - 1], p) + (if ws[|ws| - 1] == p then 1 else 0)
  }

  lemma {:induction false} CountUpdate(ws: seq<Phase>, i: nat, q: Phase, p: Phase)
    requires i < |ws|
    ensures Count(ws[i := q], p)
         == Count(ws, p) - (if ws[i] == p then 1 else 0) + (if q == p then 1 else 0)
  {
    var n := |ws| - 1;
    if i < n {
      CountUpdate(ws[..n], i, q, p);
      assert ws[i := q][..n] == ws[..n][i := q];
    } else {
      assert ws[i := q][..n] == ws[..n];
    }
  }

  lemma {:induction false} CountAppend(ws: seq<Phase>, q: Phase, p: Phase)
    ensures Count(ws + [q], p) == Count(ws, p) + (if q == p then 1 else 0)
  {
    assert (ws + [q])[..|ws|] == ws;
  }

  lemma {:induction false} CountsAddUp(ws: seq<Phase>)
    ensures Count(ws, Working) + Count(ws, Counted) + Count(ws, Released) + Count(ws, Done) == |ws|
  {
    if ws != [] {
      CountsAddUp(ws[..|ws| - 1]);
    }
  }

  lemma {:induction false} SomeWorker(ws: seq<Phase>, p: Phase) returns (i: nat)
    requires Count(ws, p) > 0
    ensures i < |ws| && ws[i] == p
  {
    var n := |ws| - 1;
    if ws[n] == p {
      i := n;
    } else {
      i := SomeWorker(ws[..n], p);
    }
  }

  /** Slots taken: every worker that has not released yet, and the one about to start. */
  function Holding(s: State): nat {
    Count(s.workers, Working) + Count(s.workers, Counted) + (if s.main == Spawning then 1 else 0)
  }

  function NotReported(s: State): nat {
    Count(s.workers, Working) + Count(s.workers, Counted) + Count(s.workers, Released)
  }

  // ---------------------------------------------------------------------------------------
  // What every interleaving keeps.
  // ---------------------------------------------------------------------------------------

  ghost predicate DispatchedOnTime(schedule: seq<ScheduledFeed>, s: State) {
    && |s.dispatchedAt| == |s.workers| <= |schedule|
    && forall i :: 0 <= i < |s.workers| ==> schedule[i].nextUpdate <= s.dispatchedAt[i] <= s.now
  }

  ghost predicate MainConsistent(schedule: seq<ScheduledFeed>, s: State) {
    match s.main
    case Head => true
    case Sleeping => |s.workers| < |schedule|
    case Acquiring => Due(schedule, s)
    case Spawning => Due(schedule, s)
    case Joining => |s.workers| == |schedule|
    case Returned(stopped) => if stopped then s.stop else |s.workers| == |schedule| && s.wg == 0
  }

  ghost predicate Inv(schedule: seq<ScheduledFeed>, cap: nat, s: State) {
    && s.sem == Holding(s) <= cap
    && s.wg == NotReported(s)
    && s.checked + s.skipped + Count(s.workers, Working) == |s.workers|
    && DispatchedOnTime(schedule, s) && MainConsistent(schedule, s)
  }

  lemma {:induction false} WorkerStepKeepsInv(schedule: seq<ScheduledFeed>, cap: nat, s: State, op: Op)
    requires Inv(schedule, cap, s) && Enabled(schedule, cap, s, op)
    requires op.Finish? || op.Release? || op.Report?
    ensures Inv(schedule, cap, Apply(schedule, cap, s, op))
  {
    var q := if op.Finish? then Counted else if op.Release? then Released else Done;
    CountUpdate(s.workers, op.i, q, Working);
    CountUpdate(s.workers, op.i, q, Counted);
    CountUpdate(s.workers, op.i, q, Released);
  }

  lemma {:induction false} SpawnedOnTime(schedule: seq<ScheduledFeed>, s: State)
    requires DispatchedOnTime(schedule, s) && Due(schedule, s)
    ensures DispatchedOnTime(schedule,
      s.(main := Head, wg := s.wg + 1, workers := s.workers + [Working], dispatchedAt := s.dispatchedAt + [s.now]))
  {
  }

  lemma {:induction false} SpawnKeepsInv(schedule: seq<ScheduledFeed>, cap: nat, s: State)
    requires Inv(schedule, cap, s) && Enabled(schedule, cap, s, Spawn)
    ensures Inv(schedule, cap, Apply(schedule, cap, s, Spawn))
  {
    CountAppend(s.workers, Working, Working);
    CountAppend(s.workers, Working, Counted);
    CountAppend(s.workers, Working, Released);
    SpawnedOnTime(schedule, s);
  }

  lemma {:induction false} StepKeepsInv(schedule: seq<ScheduledFeed>, cap: nat, s: State, op: Op)
    requires Inv(schedule, cap, s) && Enabled(schedule, cap, s, op)
    ensures Inv(schedule, cap, Apply(schedule, cap, s, op))
  {
    if op.Finish? || op.Release? || op.Report? {
      WorkerStepKeepsInv(schedule, cap, s, op);
    } else if op.Spawn? {
      SpawnKeepsInv(schedule, cap, s);
    }
  }

  ghost predicate IsRun(schedule: seq<ScheduledFeed>, cap: nat, states: seq<State>, ops: seq<Op>) {
    && |states| == |ops| + 1
    && forall k :: 0 <= k < |ops| ==>
         Enabled(schedule, cap, states[k], ops[k]) && states[k + 1] == Apply(schedule, cap, states[k], ops[k])
  }

  lemma {:induction false} RunKeepsInv(schedule: seq<ScheduledFeed>, cap: nat, states: seq<State>, ops: seq<Op>, k: nat)
    requires IsRun(schedule, cap, states, ops) && states[0] == Init(states[0].now) && k < |states|
    ensures Inv(schedule, cap, states[k])
  {
    if k > 0 {
      RunKeepsInv(schedule, cap, states, ops, k - 1);
      StepKeepsInv(schedule, cap, states[k - 1], ops[k - 1]);
    }
  }

  /** Safety of every interleaving: slots held never exceed the cap and are exactly the workers that
      have not released; pending, in flight, checked and skipped feeds add up to all feeds; nothing
      is dispatched early. A run that returns without being stopped has counted every feed. */
  lemma {:induction false} RunIsSafe(schedule: seq<ScheduledFeed>, cap: nat, states: seq<State>, ops: seq<Op>, k: nat)
    requires IsRun(schedule, cap, states, ops) && states[0] == Init(states[0].now) && k < |states|
    ensures var s := states[k];
      && s.sem == Holding(s) <= cap
      && (|schedule| - |s.workers|) + Count(s.workers, Working) + s.checked + s.skipped == |schedule|
      && DispatchedOnTime(schedule, s)
      && (s.main == Returned(false) ==> s.checked + s.skipped == |schedule|)
      && (s.main == Returned(true) ==> s.stop)
  {
    RunKeepsInv(schedule, cap, states, ops, k);
    CountsAddUp(states[k].workers);
  }

  /** The positions among the first k steps at which a worker counts its feed as checked, or as skipped. */
  ghost function FinishedAt(ops: seq<Op>, k: nat, checked: bool): set<int>
    requires k <= |ops|
  {
    set i | 0 <= i < k && ops[i].Finish? && ops[i].checked == checked
  }

  lemma {:induction false} FinishedStep(ops: seq<Op>, k: nat, checked: bool)
    requires k < |ops|
    ensures |FinishedAt(ops, k + 1, checked)|
         == |FinishedAt(ops, k, checked)| + if ops[k].Finish? && ops[k].checked == checked then 1 else 0
  {
    SameSet(FinishedAt(ops, k + 1, checked),
            FinishedAt(ops, k, checked) + if ops[k].Finish? && ops[k].checked == checked then {k} else {});
  }

  /** A step counts a feed only when its worker reports it, as what it reports; it records a dispatch, with
      the clock, exactly when it starts a worker. */
  lemma {:induction false} StepCounts(schedule: seq<ScheduledFeed>, cap: nat, s: State, op: Op, t: State)
    requires Enabled(schedule, cap, s, op) && t == Apply(schedule, cap, s, op)
    ensures t.checked == s.checked + (if op.Finish? && op.checked then 1 else 0)
    ensures t.skipped == s.skipped + (if op.Finish? && !op.checked then 1 else 0)
    ensures t.dispatchedAt == s.dispatchedAt + (if op.Spawn? then [s.now] else [])
  {
  }

  /** The statistics are the numbers of feeds the workers reported, each under its own heading. */
  lemma {:induction false} StatisticsAreExact(schedule: seq<ScheduledFeed>, cap: nat, states: seq<State>, ops: seq<Op>,
                                              k: nat)
    requires IsRun(schedule, cap, states, ops) && states[0] == Init(states[0].now) && k <= |ops|
    ensures states[k].checked == |FinishedAt(ops, k, true)| && states[k].skipped == |FinishedAt(ops, k, false)|
  {
    if k > 0 {
      StatisticsAreExact(schedule, cap, states, ops, k - 1);
      StepCounts(schedule, cap, states[k - 1], ops[k - 1], states[k]);
      FinishedStep(ops, k - 1, true);
      FinishedStep(ops, k - 1, false);
    }
  }

  /** The dispatcher is told to stop exactly if a stop signal was among the steps so far. */
  lemma {:induction false} StoppedExactly(schedule: seq<ScheduledFeed>, cap: nat, states: seq<State>, ops: seq<Op>,
                                          k: nat)
    requires IsRun(schedule, cap, states, ops) && states[0] == Init(states[0].now) && k < |states|
    ensures states[k].stop <==> exists i :: 0 <= i < k && ops[i].StopSignal?
  {
    if k > 0 {
      StoppedExactly(schedule, cap, states, ops, k - 1);
      assert states[k] == Apply(schedule, cap, states[k - 1], ops[k - 1]);
    }
  }

  /** A signal can come at any time, once. From then on the dispatcher can return as soon as it waits for
      a feed to be due or for a slot, and it leaves without another dispatch. */
  lemma {:induction false} StopEndsWaiting(schedule: seq<ScheduledFeed>, cap: nat, s: State)
    ensures Enabled(schedule, cap, s, StopSignal) <==> !s.stop
    ensures !s.stop ==> Apply(schedule, cap, s, StopSignal) == s.(stop := true)
    ensures s.stop && (s.main == Sleeping || s.main == Acquiring) ==>
      Enabled(schedule, cap, s, Abort) && Apply(schedule, cap, s, Abort) == s.(main := Returned(true))
  {
  }

  /** With a schedule that respects the minimum interval, so does every dispatch. */
  lemma {:induction false} DispatchRespectsMinInterval(schedule: seq<ScheduledFeed>, minInterval: int, cap: nat,
                                    states: seq<State>, ops: seq<Op>, k: nat, i: nat)
    requires forall x :: x in schedule ==> x.nextUpdate >= x.feed.lastFetch + minInterval
    requires IsRun(schedule, cap, states, ops) && states[0] == Init(states[0].now)
    requires k < |states| && i < |states[k].workers|
    ensures i < |states[k].dispatchedAt| && i < |schedule|
    ensures states[k].dispatchedAt[i] >= schedule[i].feed.lastFetch + minInterval
  {
    RunKeepsInv(schedule, cap, states, ops, k);
    assert schedule[i] in schedule;
  }

  /** No reachable state is stuck: until the dispatcher has returned and every worker has reported,
      some goroutine can move, or the dispatcher sleeps and only time has to pass. */
  lemma {:induction false} NoDeadlock(schedule: seq<ScheduledFeed>, cap: nat, s: State) returns (op: Op)
    requires cap > 0 && Inv(schedule, cap, s)
    requires !(s.main.Returned? && s.wg == 0)
    ensures Enabled(schedule, cap, s, op)
    ensures op.Tick? ==> s.main == Sleeping && Due(schedule, Apply(schedule, cap, s, op))
    ensures !op.StopSignal?
  {
    if s.main == Head {
      op := Look;
    } else if s.main == Spawning {
      op := Spawn;
    } else if s.main == Acquiring && s.sem < cap {
      op := Acquire;
    } else if Count(s.workers, Working) > 0 {
      var i := SomeWorker(s.workers, Working);
      op := Finish(i, true);
    } else if Count(s.workers, Counted) > 0 {
      var i := SomeWorker(s.workers, Counted);
      op := Release(i);
    } else if Count(s.workers, Released) > 0 {
      var i := SomeWorker(s.workers, Released);
      op := Report(i);
    } else if s.main == Joining {
      op := Join;
    } else {
      assert s.main == Sleeping;
      op := if Due(schedule, s) then Wake else Tick(schedule[|s.workers|].nextUpdate);
    }
  }

  // ---------------------------------------------------------------------------------------
  // Termination: apart from time and the stop signal, a run is finite.
  // ---------------------------------------------------------------------------------------

  function MainWork(m: Main): nat {
    match m
    case Head => 4
    case Sleeping => 3
    case Acquiring => 2
    case Spawning => 1
    case Joining => 1
    case Returned(_) => 0
  }

  /** Steps that can still happen. */
  function Work(schedule: seq<ScheduledFeed>, s: State): int {
    7 * (|schedule| - |s.workers|) + MainWork(s.main)
    + 3 * Count(s.workers, Working) + 2 * Count(s.workers, Counted) + Count(s.workers, Released)
  }

  lemma {:induction false} StepDoesWork(schedule: seq<ScheduledFeed>, cap: nat, s: State, op: Op)
    requires Inv(schedule, cap, s) && Enabled(schedule, cap, s, op)
    ensures op.Tick? || op.StopSignal? ==> Work(schedule, Apply(schedule, cap, s, op)) == Work(schedule, s)
    ensures !op.Tick? && !op.StopSignal? ==> Work(schedule, Apply(schedule, cap, s, op)) < Work(schedule, s)
  {
    if op.Finish? || op.Release? || op.Report? {
      var q := if op.Finish? then Counted else if op.Release? then Released else Done;
      CountUpdate(s.workers, op.i, q, Working);
      CountUpdate(s.workers, op.i, q, Counted);
      CountUpdate(s.workers, op.i, q, Released);
    } else if op.Spawn? {
      CountAppend(s.workers, Working, Working);
      CountAppend(s.workers, Working, Counted);
      CountAppend(s.workers, Working, Released);
    }
  }

  /** Steps of goroutines among the first k operations. */
  function Moves(ops: seq<Op>, k: nat): nat
    requires k <= |ops|
  {
    if k == 0 then 0 else Moves(ops, k - 1) + (if ops[k - 1].Tick? || ops[k - 1].StopSignal? then 0 else 1)
  }

  lemma {:induction false} MovesUseWork(schedule: seq<ScheduledFeed>, cap: nat, states: seq<State>,
                                        ops: seq<Op>, k: nat)
    requires IsRun(schedule, cap, states, ops) && states[0] == Init(states[0].now) && k <= |ops|
    ensures Moves(ops, k) + Work(schedule, states[k]) <= 7 * |schedule| + 4
  {
    if k > 0 {
      MovesUseWork(schedule, cap, states, ops, k - 1);
      RunKeepsInv(schedule, cap, states, ops, k - 1);
      StepDoesWork(schedule, cap, states[k - 1], ops[k - 1]);
    }
  }

  /** The positions of the goroutines' steps among the first k. */
  ghost function MovedAt(ops: seq<Op>, k: nat): set<int>
    requires k <= |ops|
  {
    set i | 0 <= i < k && !ops[i].Tick? && !ops[i].StopSignal?
  }

  lemma {:induction false} MovesAreCounted(ops: seq<Op>, k: nat)
    requires k <= |ops|
    ensures Moves(ops, k) == |MovedAt(ops, k)|
  {
    if k > 0 {
      MovesAreCounted(ops, k - 1);
      SameSet(MovedAt(ops, k),
              MovedAt(ops, k - 1) + if ops[k - 1].Tick? || ops[k - 1].StopSignal? then {} else {k - 1});
    }
  }

  /** Whatever the interleaving, the goroutines together take at most 7 steps per feed and 4 more. */
  lemma {:induction false} RunsAreShort(schedule: seq<ScheduledFeed>, cap: nat, states: seq<State>, ops: seq<Op>)
    requires IsRun(schedule, cap, states, ops) && states[0] == Init(states[0].now)
    ensures |MovedAt(ops, |ops|)| <= 7 * |schedule| + 4
  {
    MovesAreCounted(ops, |ops|);
    MovesUseWork(schedule, cap, states, ops, |ops|);
    RunKeepsInv(schedule, cap, states, ops, |ops|);
  }
}
