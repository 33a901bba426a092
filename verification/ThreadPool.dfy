/**
  The daemon's thread pool: a lock, two condition variables and a one-slot
  hand-over. The critical sections are methods of `PoolInfo`; their interleaving
  with wake-ups, spurious wake-ups and time-outs is a step relation over every
  possible schedule.
*/
module ThreadPool {
  import opened Options

  const CORE_POOL_SIZE: nat := 3

  type Task = nat
  type Id = nat

  /* ----- the state guarded by the lock ----- */

  datatype Info = Info(idle: int, total: int, task: Option<Task>)

  /** What `pool_loop` does first: count as idle, and wait unless a task is there. */
  function Idle(i: Info): Info { i.(idle := i.idle + 1) }

  /** What it does after waiting: take whatever is in the slot. */
  function Take(i: Info): Info { i.(task := None, idle := i.idle - 1) }

  /** What it does after its wait timed out. */
  function Leave(i: Info): Info { i.(idle := i.idle - 1, total := i.total - 1) }

  /** What `exec_task` does once the slot is empty. */
  function Submit(i: Info, f: Task): Info {
    i.(task := Some(f), total := if i.idle == 0 then i.total + 1 else i.total)
  }

  class PoolInfo {
    var idleThreads: int
    var totalThreads: int
    var task: Option<Task>

    constructor ()
      ensures Value() == Info(0, 0, None)
    {
      idleThreads, totalThreads, task := 0, 0, None;
    }

    function Value(): Info
      reads this
    {
      Info(idleThreads, totalThreads, task)
    }

    method BeginIdle() returns (mustWait: bool)
      modifies this
      ensures Value() == Idle(old(Value())) && mustWait == old(task).None?
    {
      idleThreads := idleThreads + 1;
      mustWait := task.None?;
    }

    method TakeTask() returns (taken: Option<Task>)
      modifies this
      ensures Value() == Take(old(Value())) && taken == old(task)
    {
      taken := task;
      task := None;
      idleThreads := idleThreads - 1;
    }

    method TimedOut()
      modifies this
      ensures Value() == Leave(old(Value()))
    {
      idleThreads := idleThreads - 1;
      totalThreads := totalThreads - 1;
    }

    /** Fills the slot; the result says which kind of thread to start, or that one waiter must be notified. */
    method PutTask(f: Task) returns (startCore: Option<bool>)
      requires task.None?
      modifies this
      ensures Value() == Submit(old(Value()), f)
      ensures startCore == if old(idleThreads) == 0 then Some(totalThreads <= CORE_POOL_SIZE) else None
    {
      task := Some(f);
      if idleThreads == 0 {
        totalThreads := totalThreads + 1;
        return Some(totalThreads <= CORE_POOL_SIZE);
      }
      return None;
    }
  }

  /* ----- the interleavings ----- */

  datatype Phase =
    | AtTop                          // about to take the lock at the top of the loop
    | Parked                         // waiting on task_is_some
    | Woken                          // returned from the wait by a notification, or for no reason
    | Expired                        // returned from the wait by a time-out
    | Running(work: Option<Task>)    // outside the lock, running what it took

  datatype Worker = Worker(phase: Phase, core: bool)

  /** A caller of `exec_task` that has not put its task in the slot yet. */
  datatype Client = Arriving(f: Task) | Blocked(f: Task) | Notified(f: Task)

  datatype State = State(
    info: Info,
    workers: map<Id, Worker>,
    clients: map<Id, Client>,
    submitted: seq<Task>,
    taken: seq<Task>)

  datatype Event =
    | Enter(t: Id, wake: Option<Id>)      // top of the loop; if it takes a task it notifies `wake`
    | Resume(t: Id, wake: Option<Id>)     // a woken worker takes the slot, and notifies `wake`
    | Exit(t: Id)                         // an expired worker ends
    | Finish(t: Id)                       // a worker is done with what it ran
    | Spurious(t: Id)                     // a worker's wait returns for no reason
    | TimeOut(t: Id)                      // an extra worker's wait times out
    | Call(c: Id, f: Task)                // someone calls exec_task
    | Attempt(c: Id, wake: Option<Id>, newId: Id)   // a client takes the lock
    | SpuriousClient(c: Id)

  const INITIAL: State := State(Info(0, 0, None), map[], map[], [], [])

  /** `notify_one` on task_is_none reaches one blocked client, if there is any. */
  predicate NotifiesClient(s: State, wake: Option<Id>) {
    if wake.Some? then wake.value in s.clients && s.clients[wake.value].Blocked?
    else forall c :: c in s.clients ==> !s.clients[c].Blocked?
  }

  function ClientsAfter(s: State, wake: Option<Id>): map<Id, Client>
    requires NotifiesClient(s, wake)
  {
    if wake.Some? then s.clients[wake.value := Notified(s.clients[wake.value].f)] else s.clients
  }

  /** `notify_one` on task_is_some reaches one parked worker, if there is any: not one already timed out. */
  predicate NotifiesWorker(s: State, wake: Option<Id>) {
    if wake.Some? then wake.value in s.workers && s.workers[wake.value].phase.Parked?
    else forall t :: t in s.workers ==> !s.workers[t].phase.Parked?
  }

  function Move(s: State, t: Id, p: Phase): map<Id, Worker>
    requires t in s.workers
  {
    s.workers[t := s.workers[t].(phase := p)]
  }

  function TaskSeq(o: Option<Task>): seq<Task> { if o.Some? then [o.value] else [] }

  predicate Enabled(s: State, e: Event) {
    match e
    case Enter(t, wake) => t in s.workers && s.workers[t].phase.AtTop? &&
                           (if s.info.task.Some? then NotifiesClient(s, wake) else wake.None?)
    case Resume(t, wake) => t in s.workers && s.workers[t].phase.Woken? && NotifiesClient(s, wake)
    case Exit(t) => t in s.workers && s.workers[t].phase.Expired?
    case Finish(t) => t in s.workers && s.workers[t].phase.Running?
    case Spurious(t) => t in s.workers && s.workers[t].phase.Parked?
    case TimeOut(t) => t in s.workers && s.workers[t].phase.Parked? && !s.workers[t].core
    case Call(c, _) => c !in s.clients
    case Attempt(c, wake, newId) =>
      c in s.clients && !s.clients[c].Blocked? &&
      (s.info.task.None? && s.info.idle != 0 ==> NotifiesWorker(s, wake)) &&
      (s.info.task.None? && s.info.idle == 0 ==> newId !in s.workers)
    case SpuriousClient(c) => c in s.clients && s.clients[c].Blocked?
  }

  /** One step; `cores` is the size of the core pool. */
  function Next(s: State, e: Event, cores: nat): State
    requires Enabled(s, e)
  {
    match e
    case Enter(t, wake) =>
      if s.info.task.None? then s.(info := Idle(s.info), workers := Move(s, t, Parked))
      else s.(info := Take(Idle(s.info)), workers := Move(s, t, Running(s.info.task)),
              clients := ClientsAfter(s, wake), taken := s.taken + TaskSeq(s.info.task))
    case Resume(t, wake) =>
      s.(info := Take(s.info), workers := Move(s, t, Running(s.info.task)),
         clients := ClientsAfter(s, wake), taken := s.taken + TaskSeq(s.info.task))
    case Exit(t) => s.(info := Leave(s.info), workers := s.workers - {t})
    case Finish(t) => s.(workers := Move(s, t, AtTop))
    case Spurious(t) => s.(workers := Move(s, t, Woken))
    case TimeOut(t) => s.(workers := Move(s, t, Expired))
    case Call(c, f) => s.(clients := s.clients[c := Arriving(f)])
    case Attempt(c, wake, newId) =>
      if s.info.task.Some? then s.(clients := s.clients[c := Blocked(s.clients[c].f)])
      else
        var f := s.clients[c].f;
        var info := Submit(s.info, f);
        s.(info := info,
           workers := if s.info.idle == 0 then s.workers[newId := Worker(AtTop, info.total <= cores)]
                      else if wake.Some? then Move(s, wake.value, Woken)
                      else s.workers,
           clients := s.clients - {c},
           submitted := s.submitted + [f])
    case SpuriousClient(c) => s.(clients := s.clients[c := Notified(s.clients[c].f)])
  }

  /** Where a schedule leads, if each of its steps is possible in turn. */
  function Exec(s: State, run: seq<Event>, cores: nat): Option<State>
    decreases |run|
  {
    if run == [] then Some(s)
    else
      var before := Exec(s, run[..|run| - 1], cores);
      if before.Some? && Enabled(before.value, run[|run| - 1])
      then Some(Next(before.value, run[|run| - 1], cores))
      else None
  }

  predicate IsRun(s: State, run: seq<Event>, cores: nat) { Exec(s, run, cores).Some? }

  function Last(s: State, run: seq<Event>, cores: nat): State
    requires IsRun(s, run, cores)
  {
    Exec(s, run, cores).value
  }

  /* ----- the invariant ----- */

  ghost function Live(s: State): set<Id> { s.workers.Keys }
  ghost function Cores(s: State): set<Id> { set t | t in s.workers && s.workers[t].core }
  ghost function Waiting(s: State): set<Id> { set t | t in s.workers && IsWaiting(s.workers[t].phase) }

  /** Counted as idle. */
  predicate IsWaiting(p: Phase) { p.Parked? || p.Woken? || p.Expired? }

  function Min(a: int, b: int): int { if a < b then a else b }

  /** The counters count, and the core pool fills up first and never shrinks. */
  ghost predicate Counts(s: State, cores: nat) {
    s.info.idle == |Waiting(s)| &&
    s.info.total == |Live(s)| &&
    |Cores(s)| == Min(s.info.total, cores) &&
    forall t :: t in s.workers && s.workers[t].phase.Expired? ==> !s.workers[t].core
  }

  /** A worker that will look at the slot again without anyone's help. */
  predicate Attentive(s: State, t: Id) {
    t in s.workers && !s.workers[t].phase.Parked? && !s.workers[t].phase.Expired?
  }

  ghost predicate NoLostTask(s: State) {
    s.info.task.Some? ==> exists t :: Attentive(s, t)
  }

  /** A blocked client is only ever blocked by a full slot or behind another client on its way. */
  ghost predicate NoLostClient(s: State) {
    s.info.task.None? && (exists c :: c in s.clients && s.clients[c].Blocked?) ==>
      exists c :: c in s.clients && s.clients[c].Notified?
  }

  /** Tasks are taken in the order they were submitted, each exactly once. */
  ghost predicate InOrder(s: State) {
    s.submitted == s.taken + TaskSeq(s.info.task)
  }

  ghost predicate Inv(s: State, cores: nat) {
    Counts(s, cores) && NoLostTask(s) && NoLostClient(s) && InOrder(s)
  }

  /* ----- every step keeps the invariant ----- */

  lemma {:induction false} SubsetSize<T>(a: set<T>, b: set<T>)
    requires a <= b
    ensures |a| <= |b|
    ensures |a| == |b| ==> a == b
  {
    assert b == a + (b - a);
    assert |b| == |a| + |b - a|;
  }

  lemma MoveSets(s: State, s': State, t: Id, p: Phase)
    requires t in s.workers && s'.workers == Move(s, t, p)
    ensures Live(s') == Live(s) && Cores(s') == Cores(s)
    ensures Waiting(s') == if IsWaiting(p) then Waiting(s) + {t} else Waiting(s) - {t}
  {
    hide IsWaiting;
    assert s'.workers.Keys == s.workers.Keys;
    forall u ensures u in Cores(s') <==> u in Cores(s) {}
    forall u ensures u in Waiting(s') <==> u in if IsWaiting(p) then Waiting(s) + {t} else Waiting(s) - {t} {}
  }

  lemma MoveSize(w: set<Id>, t: Id, was: bool, now: bool)
    requires was <==> t in w
    ensures |if now then w + {t} else w - {t}| == |w| + (if now then 1 else 0) - (if was then 1 else 0)
  {
    if was && now {
      assert w + {t} == w;
    } else if !was && !now {
      assert w - {t} == w;
    }
  }

  /** A worker changing phase moves in or out of the waiting set only. */
  lemma MoveCounts(s: State, s': State, t: Id, p: Phase, cores: nat)
    requires Counts(s, cores) && t in s.workers && s'.workers == Move(s, t, p)
    requires s'.info.total == s.info.total
    requires s'.info.idle ==
             s.info.idle + (if IsWaiting(p) then 1 else 0) - (if IsWaiting(s.workers[t].phase) then 1 else 0)
    requires p.Expired? ==> !s.workers[t].core
    ensures Counts(s', cores)
  {
    InWaiting(s, t);
    MoveExpired(s, s', t, p);
    hide Cores, Waiting, Live, Move, IsWaiting;
    MoveSets(s, s', t, p);
    MoveSize(Waiting(s), t, IsWaiting(s.workers[t].phase), IsWaiting(p));
  }

  lemma InWaiting(s: State, t: Id)
    requires t in s.workers
    ensures t in Waiting(s) <==> IsWaiting(s.workers[t].phase)
  {
  }

  lemma MoveExpired(s: State, s': State, t: Id, p: Phase)
    requires t in s.workers && s'.workers == Move(s, t, p) && (p.Expired? ==> !s.workers[t].core)
    requires forall u :: u in s.workers && s.workers[u].phase.Expired? ==> !s.workers[u].core
    ensures forall u :: u in s'.workers && s'.workers[u].phase.Expired? ==> !s'.workers[u].core
  {
  }

  lemma ExitCounts(s: State, s': State, t: Id, cores: nat)
    requires Counts(s, cores) && t in s.workers && s.workers[t].phase.Expired?
    requires s'.workers == s.workers - {t} && s'.info == Leave(s.info)
    ensures Counts(s', cores)
  {
    assert Live(s') == Live(s) - {t};
    assert Cores(s') == Cores(s);
    assert Waiting(s') == Waiting(s) - {t};
    SubsetSize(Cores(s), Live(s) - {t});
  }

  lemma StartCounts(s: State, s': State, t: Id, f: Task, cores: nat)
    requires Counts(s, cores) && t !in s.workers && s.info.idle == 0 && s'.info == Submit(s.info, f)
    requires s'.workers == s.workers[t := Worker(AtTop, s'.info.total <= cores)]
    ensures Counts(s', cores)
  {
    hide Cores, Waiting, Live;
    StartSets(s, s', t, s'.info.total <= cores);
  }

  lemma StartSets(s: State, s': State, t: Id, core: bool)
    requires t !in s.workers && s'.workers == s.workers[t := Worker(AtTop, core)]
    ensures Live(s') == Live(s) + {t} && t !in Live(s) && t !in Cores(s)
    ensures Cores(s') == if core then Cores(s) + {t} else Cores(s)
    ensures Waiting(s') == Waiting(s)
  {
    forall u ensures u in Cores(s') <==> u in if core then Cores(s) + {t} else Cores(s) {}
    forall u ensures u in Waiting(s') <==> u in Waiting(s) {}
  }

  lemma SameCounts(s: State, s': State, cores: nat)
    requires Counts(s, cores) && s'.workers == s.workers && s'.info.idle == s.info.idle && s'.info.total == s.info.total
    ensures Counts(s', cores)
  {
    assert Live(s') == Live(s) && Cores(s') == Cores(s) && Waiting(s') == Waiting(s);
  }

  lemma StepCounts(s: State, e: Event, cores: nat)
    requires Counts(s, cores) && Enabled(s, e)
    ensures Counts(Next(s, e, cores), cores)
  {
    var s' := Next(s, e, cores);
    match e {
      case Enter(t, _) => MoveCounts(s, s', t, s'.workers[t].phase, cores);
      case Resume(t, _) => MoveCounts(s, s', t, s'.workers[t].phase, cores);
      case Exit(t) => ExitCounts(s, s', t, cores);
      case Finish(t) => MoveCounts(s, s', t, AtTop, cores);
      case Spurious(t) => MoveCounts(s, s', t, Woken, cores);
      case TimeOut(t) => MoveCounts(s, s', t, Expired, cores);
      case Call(_, _) => SameCounts(s, s', cores);
      case SpuriousClient(_) => SameCounts(s, s', cores);
      case Attempt(c, wake, newId) =>
        if s.info.task.None? && s.info.idle == 0 {
          StartCounts(s, s', newId, s.clients[c].f, cores);
        } else if s.info.task.None? && wake.Some? {
          MoveCounts(s, s', wake.value, Woken, cores);
        } else {
          SameCounts(s, s', cores);
        }
    }
  }

  /**
    The time-out race: all idle workers may already be past their time-out when
    the slot is filled, so nobody is notified. Then extra workers exist, hence
    the whole core pool does, and none of it is idle.
  */
  lemma SomeoneIsAttentive(s: State, cores: nat)
    requires cores >= 1 && Counts(s, cores) && s.info.idle != 0
    requires forall t :: t in s.workers ==> !s.workers[t].phase.Parked?
    ensures exists t :: Attentive(s, t)
  {
    var t :| t in Waiting(s);
    if s.workers[t].phase.Expired? {
      SubsetSize(Cores(s), Live(s) - {t});
      assert |Cores(s)| == cores;
      var c :| c in Cores(s);
      assert Attentive(s, c);
    } else {
      assert Attentive(s, t);
    }
  }

  lemma StepKeepsTask(s: State, e: Event, cores: nat)
    requires cores >= 1 && Counts(s, cores) && NoLostTask(s) && Enabled(s, e)
    ensures NoLostTask(Next(s, e, cores))
  {
    var s' := Next(s, e, cores);
    if s'.info.task.Some? {
      if s.info.task.Some? {
        var t :| Attentive(s, t);
        assert Attentive(s', t);
      } else {
        var Attempt(c, wake, newId) := e;
        if s.info.idle == 0 {
          assert Attentive(s', newId);
        } else if wake.Some? {
          assert Attentive(s', wake.value);
        } else {
          SomeoneIsAttentive(s, cores);
          var t :| Attentive(s, t);
          assert Attentive(s', t);
        }
      }
    }
  }

  lemma StepKeepsClients(s: State, e: Event, cores: nat)
    requires NoLostClient(s) && Enabled(s, e)
    ensures NoLostClient(Next(s, e, cores))
  {
    var s' := Next(s, e, cores);
    if s'.info.task.None? && exists c :: c in s'.clients && s'.clients[c].Blocked? {
      var b :| b in s'.clients && s'.clients[b].Blocked?;
      assert b in s.clients && s.clients[b].Blocked?;
      match e {
        case Enter(_, wake) =>
          if s.info.task.Some? {
            assert wake.value in s'.clients && s'.clients[wake.value].Notified?;
          } else {
            assert s'.clients == s.clients;
          }
        case Resume(_, wake) =>
          assert wake.value in s'.clients && s'.clients[wake.value].Notified?;
        case SpuriousClient(c) =>
          assert s'.clients[c].Notified?;
        case Call(c, _) =>
          var n :| n in s.clients && s.clients[n].Notified?;
          assert n in s'.clients && s'.clients[n].Notified?;
        case _ =>
          assert s'.clients == s.clients;
      }
    }
  }

  lemma StepKeepsOrder(s: State, e: Event, cores: nat)
    requires InOrder(s) && Enabled(s, e)
    ensures InOrder(Next(s, e, cores))
  {
  }

  /** In every state of every schedule: no task is stranded, no client is stranded, tasks run once and in order. */
  lemma {:induction false} PoolIsSafe(run: seq<Event>, cores: nat)
    requires cores >= 1 && IsRun(INITIAL, run, cores)
    ensures Inv(Last(INITIAL, run, cores), cores)
    decreases |run|
  {
    if run == [] {
      assert Live(INITIAL) == {} && Cores(INITIAL) == {} && Waiting(INITIAL) == {};
    } else {
      var before := run[..|run| - 1];
      PoolIsSafe(before, cores);
      var s, e := Last(INITIAL, before, cores), run[|run| - 1];
      StepCounts(s, e, cores);
      StepKeepsTask(s, e, cores);
      StepKeepsClients(s, e, cores);
      StepKeepsOrder(s, e, cores);
    }
  }

  /** A run to `s`. */
  ghost predicate Reaches(run: seq<Event>, s: State) { IsRun(INITIAL, run, 0) && Last(INITIAL, run, 0) == s }

  lemma Extend(run: seq<Event>, s: State, e: Event) returns (longer: seq<Event>)
    requires Reaches(run, s) && Enabled(s, e)
    ensures Reaches(longer, Next(s, e, 0))
  {
    longer := run + [e];
    assert longer[..|longer| - 1] == run;
  }

  /** The only worker has run a task, waits, and its wait times out. */
  const EXPIRED: State := State(Info(1, 1, None), map[0 := Worker(Expired, false)], map[], [7], [7])

  lemma WorkerExpires() returns (run: seq<Event>)
    ensures Reaches(run, EXPIRED)
  {
    hide Reaches;
    var s := INITIAL;
    run := [];
    assert Reaches(run, s) by { NoSteps(); }
    run := Extend(run, s, Call(0, 7));
    s := State(Info(0, 0, None), map[], map[0 := Arriving(7)], [], []);
    run := Extend(run, s, Attempt(0, None, 0));
    s := State(Info(0, 1, Some(7)), map[0 := Worker(AtTop, false)], map[], [7], []);
    assert map[0 := Arriving(7)] - {0} == map[];
    run := Extend(run, s, Enter(0, None));
    s := State(Info(0, 1, None), map[0 := Worker(Running(Some(7)), false)], map[], [7], [7]);
    run := Extend(run, s, Finish(0));
    s := State(Info(0, 1, None), map[0 := Worker(AtTop, false)], map[], [7], [7]);
    run := Extend(run, s, Enter(0, None));
    s := State(Info(1, 1, None), map[0 := Worker(Parked, false)], map[], [7], [7]);
    run := Extend(run, s, TimeOut(0));
    assert Next(s, TimeOut(0), 0).workers == EXPIRED.workers;
  }

  lemma NoSteps()
    ensures Reaches([], INITIAL)
  {
  }

  /** A core pool is not a luxury: without one a task can be stranded, with no worker left at all. */
  lemma NoCorePoolLosesTask() returns (run: seq<Event>)
    ensures IsRun(INITIAL, run, 0)
    ensures Last(INITIAL, run, 0).info.task.Some? && Last(INITIAL, run, 0).workers == map[]
  {
    hide IsRun, Last;
    run := WorkerExpires();
    run := Extend(run, EXPIRED, Call(1, 8));
    var s := EXPIRED.(clients := map[1 := Arriving(8)]);
    run := Extend(run, s, Attempt(1, None, 0));
    s := State(Info(1, 1, Some(8)), EXPIRED.workers, map[1 := Arriving(8)] - {1}, [7, 8], [7]);
    run := Extend(run, s, Exit(0));
  }

  /** No task is ever stranded exactly when there is a core pool. */
  lemma CorePoolIsNecessary(cores: nat)
    ensures (forall run :: IsRun(INITIAL, run, cores) ==> NoLostTask(Last(INITIAL, run, cores))) <==> cores >= 1
  {
    if cores >= 1 {
      forall run | IsRun(INITIAL, run, cores) ensures NoLostTask(Last(INITIAL, run, cores)) { PoolIsSafe(run, cores); }
    } else {
      var run := NoCorePoolLosesTask();
      assert !NoLostTask(Last(INITIAL, run, cores));
    }
  }

  /* ----- progress ----- */

  /** Steps the pool takes by itself: no new calls, no time-outs, no spurious wake-ups. */
  predicate Voluntary(e: Event) {
    e.Enter? || e.Resume? || e.Exit? || e.Finish? || e.Attempt?
  }

  lemma SomeClientToNotify(s: State) returns (wake: Option<Id>)
    ensures NotifiesClient(s, wake)
  {
    if c :| c in s.clients && s.clients[c].Blocked? {
      wake := Some(c);
    } else {
      wake := None;
    }
  }

  lemma SomeWorkerToNotify(s: State) returns (wake: Option<Id>)
    ensures NotifiesWorker(s, wake)
  {
    if t :| t in s.workers && s.workers[t].phase.Parked? {
      wake := Some(t);
    } else {
      wake := None;
    }
  }

  lemma {:induction false} UnusedId(ids: set<Id>) returns (n: Id)
    ensures n !in ids
    ensures forall i :: i in ids ==> i < n
  {
    if ids == {} {
      n := 0;
    } else {
      var i :| i in ids;
      var rest := ids - {i};
      n := UnusedId(rest);
      assert ids == rest + {i};
      if n <= i {
        n := i + 1;
      }
    }
  }

  /** The pool is never stuck while a task or a client is waiting. */
  lemma NeverStuck(s: State, cores: nat)
    requires Inv(s, cores) && (s.info.task.Some? || s.clients != map[])
    ensures exists e :: Voluntary(e) && Enabled(s, e)
  {
    if s.info.task.Some? {
      var t :| Attentive(s, t);
      var wake := SomeClientToNotify(s);
      match s.workers[t].phase {
        case AtTop => assert Enabled(s, Enter(t, wake));
        case Woken => assert Enabled(s, Resume(t, wake));
        case Running(_) => assert Enabled(s, Finish(t));
      }
    } else {
      var c := UnblockedClient(s);
      var wake := SomeWorkerToNotify(s);
      var n := UnusedId(s.workers.Keys);
      assert Enabled(s, Attempt(c, wake, n));
    }
  }

  lemma UnblockedClient(s: State) returns (c: Id)
    requires NoLostClient(s) && s.info.task.None? && s.clients != map[]
    ensures c in s.clients && !s.clients[c].Blocked?
  {
    assert s.clients.Keys != {};
    c :| c in s.clients;
    if s.clients[c].Blocked? {
      c :| c in s.clients && s.clients[c].Notified?;
    }
  }

  function StepsOf(run: seq<Event>, t: Id): nat {
    if run == [] then 0 else StepsOf(run[..|run| - 1], t) + (if By(run[|run| - 1], t) then 1 else 0)
  }

  predicate By(e: Event, t: Id) {
    e == Finish(t) || e == Exit(t) || (e.Enter? && e.t == t) || (e.Resume? && e.t == t)
  }

  /** Own steps until the worker has looked at the slot. */
  function Distance(p: Phase): nat { if p.Running? then 2 else 1 }

  /**
    Whoever the scheduler favours, an attentive worker's second own step cannot
    come before the pending task has been taken.
  */
  lemma {:induction false} PendingTaskIsTaken(s: State, run: seq<Event>, t: Id, cores: nat)
    requires s.info.task.Some? && Attentive(s, t) && IsRun(s, run, cores)
    ensures StepsOf(run, t) >= 2 ==> s.taken + [s.info.task.value] <= Last(s, run, cores).taken
    ensures var l := Last(s, run, cores);
            s.taken + [s.info.task.value] <= l.taken ||
            (l.taken == s.taken && l.info.task == s.info.task && Attentive(l, t) &&
             StepsOf(run, t) + Distance(l.workers[t].phase) <= Distance(s.workers[t].phase))
    decreases |run|
  {
    if run != [] {
      PendingTaskIsTaken(s, run[..|run| - 1], t, cores);
    }
  }

  /* ----- no task is lost or exchanged before it is submitted ----- */

  ghost function Pick(m: map<Id, Client>): (c: Id)
    requires m != map[]
    ensures c in m
  {
    assert m.Keys != {};
    var c :| c in m;
    c
  }

  /** The tasks clients still hold. */
  ghost function Held(m: map<Id, Client>): multiset<Task>
    decreases |m|
  {
    if m == map[] then multiset{} else Held(m - {Pick(m)}) + multiset{m[Pick(m)].f}
  }

  lemma HeldPick(m: map<Id, Client>)
    requires m != map[]
    ensures Pick(m) in m && Held(m) == Held(m - {Pick(m)}) + multiset{m[Pick(m)].f}
  {
  }

  lemma {:induction false} HeldWithout(m: map<Id, Client>, c: Id)
    requires c in m
    ensures Held(m) == Held(m - {c}) + multiset{m[c].f}
    decreases |m|
  {
    hide Held, Pick;
    HeldPick(m);
    var j := Pick(m);
    if j != c {
      HeldWithout(m - {j}, c);
      HeldWithout(m - {c}, j);
      assert m - {j} - {c} == m - {c} - {j};
    }
  }

  lemma HeldWith(m: map<Id, Client>, c: Id, x: Client)
    requires c !in m
    ensures Held(m[c := x]) == Held(m) + multiset{x.f}
  {
    hide Held;
    HeldWithout(m[c := x], c);
    assert m[c := x] - {c} == m;
  }

  /** A client that only changes its phase holds what it held. */
  lemma HeldSame(m: map<Id, Client>, c: Id, x: Client)
    requires c in m && x.f == m[c].f
    ensures Held(m[c := x]) == Held(m)
  {
    hide Held;
    HeldWithout(m, c);
    HeldWithout(m[c := x], c);
    assert m[c := x] - {c} == m - {c};
  }

  /** The tasks that were handed to `exec_task`. */
  function Called(run: seq<Event>): multiset<Task> {
    if run == [] then multiset{}
    else
      var e := run[|run| - 1];
      Called(run[..|run| - 1]) + if e.Call? then multiset{e.f} else multiset{}
  }

  /** What a client was last called with. */
  function LastCall(run: seq<Event>, c: Id): Option<Task> {
    if run == [] then None
    else
      var e := run[|run| - 1];
      if e.Call? && e.c == c then Some(e.f) else LastCall(run[..|run| - 1], c)
  }

  lemma StepConserves(s: State, e: Event, cores: nat)
    requires Enabled(s, e)
    ensures var s' := Next(s, e, cores);
            multiset(s'.submitted) + Held(s'.clients) ==
            multiset(s.submitted) + Held(s.clients) + if e.Call? then multiset{e.f} else multiset{}
  {
    hide Held;
    var s' := Next(s, e, cores);
    match e {
      case Enter(_, wake) => NotifiedHolds(s, wake);
      case Resume(_, wake) => NotifiedHolds(s, wake);
      case Call(c, f) => HeldWith(s.clients, c, Arriving(f));
      case SpuriousClient(c) => HeldSame(s.clients, c, Notified(s.clients[c].f));
      case Attempt(c, _, _) =>
        if s.info.task.Some? {
          HeldSame(s.clients, c, Blocked(s.clients[c].f));
        } else {
          HeldWithout(s.clients, c);
        }
      case _ =>
    }
  }

  lemma NotifiedHolds(s: State, wake: Option<Id>)
    ensures NotifiesClient(s, wake) ==> Held(ClientsAfter(s, wake)) == Held(s.clients)
  {
    hide Held;
    if NotifiesClient(s, wake) && wake.Some? {
      HeldSame(s.clients, wake.value, Notified(s.clients[wake.value].f));
    }
  }

  lemma StepKeepsOwn(s: State, e: Event, cores: nat, c: Id)
    requires Enabled(s, e)
    ensures var s' := Next(s, e, cores);
            c in s'.clients ==>
              if e.Call? && e.c == c then s'.clients[c].f == e.f
              else c in s.clients && s'.clients[c].f == s.clients[c].f
    ensures e.Attempt? && s.info.task.None? ==> Next(s, e, cores).submitted == s.submitted + [s.clients[e.c].f]
    ensures !(e.Attempt? && s.info.task.None?) ==> Next(s, e, cores).submitted == s.submitted
  {
  }

  /**
    In every state of every schedule the tasks handed in are those submitted and
    those clients still hold, each as often, and every client holds the task of
    its own call.
  */
  lemma {:induction false} TasksAreConserved(run: seq<Event>, cores: nat)
    requires IsRun(INITIAL, run, cores)
    ensures var s := Last(INITIAL, run, cores);
            Called(run) == multiset(s.submitted) + Held(s.clients) &&
            forall c :: c in s.clients ==> LastCall(run, c) == Some(s.clients[c].f)
    decreases |run|
  {
    hide Held, Enabled, Next;
    if run == [] {
      NobodyHolds();
    } else {
      var before := run[..|run| - 1];
      TasksAreConserved(before, cores);
      var s, e := Last(INITIAL, before, cores), run[|run| - 1];
      StepConserves(s, e, cores);
      forall c | c in Next(s, e, cores).clients ensures LastCall(run, c) == Some(Next(s, e, cores).clients[c].f) {
        StepKeepsOwn(s, e, cores, c);
      }
    }
  }

  lemma NobodyHolds()
    ensures Held(map[]) == multiset{}
  {
  }

  /** A client that finds the slot empty submits the task of its own call, and nothing else ever is submitted. */
  lemma SubmitsOwnTask(run: seq<Event>, e: Event, cores: nat)
    requires IsRun(INITIAL, run, cores) && Enabled(Last(INITIAL, run, cores), e)
    ensures var s := Last(INITIAL, run, cores);
            Next(s, e, cores).submitted ==
            s.submitted + if e.Attempt? && s.info.task.None? then TaskSeq(LastCall(run, e.c)) else []
  {
    hide Held, LastCall;
    var s := Last(INITIAL, run, cores);
    TasksAreConserved(run, cores);
    StepKeepsOwn(s, e, cores, if e.Attempt? then e.c else 0);
  }

  /**
    The life of a client, both ways: it appears by its call, blocks when it finds
    the slot full, wakes by a notification or for no reason, and leaves when it
    finds the slot empty; nothing else happens to it.
  */
  lemma ClientMoves(s: State, e: Event, cores: nat, c: Id)
    requires Enabled(s, e)
    ensures var s' := Next(s, e, cores);
            var woken := (e.SpuriousClient? && e.c == c) ||
                         ((e.Resume? || (e.Enter? && s.info.task.Some?)) && e.wake == Some(c));
            var tries := e.Attempt? && e.c == c;
            if c !in s.clients then
              !woken && !tries && (c in s'.clients <==> e.Call? && e.c == c) &&
              (c in s'.clients ==> s'.clients[c] == Arriving(e.f))
            else if s.clients[c].Blocked? then
              !tries && c in s'.clients &&
              s'.clients[c] == if woken then Notified(s.clients[c].f) else s.clients[c]
            else
              !woken && (c in s'.clients <==> !(tries && s.info.task.None?)) &&
              (c in s'.clients ==> s'.clients[c] == if tries then Blocked(s.clients[c].f) else s.clients[c])
  {
  }

  /* ----- the code runs the steps ----- */

  /** What a critical section tells its thread: what it took, and what kind of thread to start. */
  datatype Effect = Effect(mustWait: bool, taken: Option<Task>, startCore: Option<bool>)

  /** The thread of the event moves as its critical section told it. */
  ghost predicate Obeys(s: State, s': State, e: Event, r: Effect) {
    match e
    case Enter(t, _) => t in s'.workers && s'.workers[t].phase == if r.mustWait then Parked else Running(r.taken)
    case Resume(t, _) => t in s'.workers && s'.workers[t].phase == Running(r.taken)
    case Attempt(c, _, newId) =>
      if r.mustWait then c in s'.clients && s'.clients[c].Blocked?
      else
        c !in s'.clients &&
        (r.startCore.Some? ==> newId in s'.workers && s'.workers[newId] == Worker(AtTop, r.startCore.value))
    case _ => true
  }

  /** Runs the critical section of one event on the shared state. */
  method Perform(pool: PoolInfo, s: State, e: Event) returns (r: Effect)
    requires Enabled(s, e) && pool.Value() == s.info
    modifies pool
    ensures var s' := Next(s, e, CORE_POOL_SIZE);
            pool.Value() == s'.info && Obeys(s, s', e, r) && s'.taken == s.taken + TaskSeq(r.taken)
  {
    hide NotifiesClient, NotifiesWorker;
    r := Effect(false, None, None);
    match e {
      case Enter(_, _) =>
        var wait := pool.BeginIdle();
        r := r.(mustWait := wait);
        if !wait {
          var taken := pool.TakeTask();
          r := r.(taken := taken);
        }
      case Resume(_, _) =>
        var taken := pool.TakeTask();
        r := r.(taken := taken);
      case Exit(_) =>
        pool.TimedOut();
      case Attempt(c, _, _) =>
        if pool.task.Some? {
          r := r.(mustWait := true);
        } else {
          var start := pool.PutTask(s.clients[c].f);
          r := r.(startCore := start);
        }
      case _ =>
    }
  }

  /**
    Any schedule, carried out on the shared state: at its end the two counters
    are the numbers of idle and of live threads, up to three of them core threads,
    the slot holds the one task submitted and not yet taken, somebody will look at
    it, and no task handed in is lost.
  */
  method RunSchedule(run: seq<Event>) returns (pool: PoolInfo, s: State)
    requires IsRun(INITIAL, run, CORE_POOL_SIZE)
    ensures s == Last(INITIAL, run, CORE_POOL_SIZE)
    ensures pool.idleThreads == |Waiting(s)| && pool.totalThreads == |Live(s)|
    ensures |Cores(s)| == if |Live(s)| < 3 then |Live(s)| else 3
    ensures s.submitted == s.taken + TaskSeq(pool.task)
    ensures Called(run) == multiset(s.taken + TaskSeq(pool.task)) + Held(s.clients)
    ensures pool.task.Some? ==> exists t :: Attentive(s, t)
  {
    hide Enabled, Next, Waiting, Live, Cores, NoLostTask, NoLostClient, Held, Called, LastCall;
    pool := new PoolInfo();
    s := INITIAL;
    var i := 0;
    RunPrefix(run, 0, CORE_POOL_SIZE);
    while i < |run|
      invariant i <= |run| && fresh(pool) && IsRun(INITIAL, run[..i], CORE_POOL_SIZE)
      invariant s == Last(INITIAL, run[..i], CORE_POOL_SIZE) && pool.Value() == s.info
    {
      RunPrefix(run, i + 1, CORE_POOL_SIZE);
      assert run[..i + 1][..i] == run[..i];
      var r := Perform(pool, s, run[i]);
      s := Next(s, run[i], CORE_POOL_SIZE);
      i := i + 1;
    }
    assert run[..i] == run;
    PoolIsSafe(run, CORE_POOL_SIZE);
    TasksAreConserved(run, CORE_POOL_SIZE);
    SlotIsAttended(s);
  }

  lemma SlotIsAttended(s: State)
    requires NoLostTask(s)
    ensures s.info.task.Some? ==> exists t :: Attentive(s, t)
  {
  }

  lemma {:induction false} RunPrefix(run: seq<Event>, i: nat, cores: nat)
    requires IsRun(INITIAL, run, cores) && i <= |run|
    ensures IsRun(INITIAL, run[..i], cores)
    decreases |run|
  {
    hide Enabled, Next;
    if i < |run| {
      RunPrefix(run[..|run| - 1], i, cores);
      assert run[..|run| - 1][..i] == run[..i];
    } else {
      assert run[..i] == run;
    }
  }
}
