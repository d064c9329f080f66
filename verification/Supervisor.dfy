/** The service manager: starts one worker per service, restarts workers that panic, and ends
    when the join set is empty. The workers lock is held by `start` and by the manager loop. */
module Supervisor {

  type Service = nat

  datatype Result = Fine | Panic | Failure

  /** A task of the join set. */
  datatype Task = Live(service: Service) | Ended(service: Service, result: Result)

  datatype Starter = Unstarted | Starting(todo: seq<Service>) | Started | StartFailed

  datatype Manager = Absent | Looping | Holding | Restarting(service: Service) | DoneOk | DoneErr

  datatype Lock = Free | ByStarter | ByManager

  /** The result the manager saw last for a service, and whether the server was running then. */
  datatype Verdict = Verdict(result: Result, running: bool)

  datatype State = State(
    running: bool,
    services: seq<Service>,
    lock: Lock,
    starter: Starter,
    manager: Manager,
    tasks: map<nat, Task>,
    nextTask: nat,
    last: map<Service, Verdict>)

  function Init(services: seq<Service>): State {
    State(true, services, Free, Unstarted, Absent, map[], 0, map[])
  }

  datatype Step =
    | Begin
    | StartNext
    | End(task: nat, result: Result)
    | Shutdown
    | Acquire
    | Join(task: nat)
    | SeeEmpty
    | Restart

  function Spawn(s: State, service: Service): State {
    s.(tasks := s.tasks[s.nextTask := Live(service)], nextTask := s.nextTask + 1)
  }

  /** `handle_result` and `handle_error` up to the restart delay. */
  function HandleResult(s: State, service: Service, result: Result): State {
    var t := s.(last := s.last[service := Verdict(result, s.running)]);
    if result.Fine? || !s.running then t.(manager := Looping, lock := Free)
    else if result.Failure? then t.(manager := DoneErr, lock := Free)
    else t.(manager := Restarting(service))
  }

  /** One atomic action; an action that is not enabled changes nothing. */
  function Do(s: State, a: Step): State {
    match a
    case Begin =>
      if s.starter.Unstarted? && s.lock.Free? then
        s.(lock := ByStarter, starter := Starting(s.services), manager := Looping)
      else s
    case StartNext =>
      if !s.starter.Starting? then s
      else if s.starter.todo == [] then s.(starter := Started, lock := Free)
      else if !s.running then s.(starter := StartFailed, lock := Free)
      else Spawn(s, s.starter.todo[0]).(starter := Starting(s.starter.todo[1..]))
    case End(t, result) =>
      if t in s.tasks && s.tasks[t].Live? then s.(tasks := s.tasks[t := Ended(s.tasks[t].service, result)]) else s
    case Shutdown => s.(running := false)
    case Acquire =>
      if s.manager.Looping? && s.lock.Free? then s.(manager := Holding, lock := ByManager) else s
    case Join(t) =>
      if s.manager.Holding? && t in s.tasks && s.tasks[t].Ended? then
        HandleResult(s.(tasks := s.tasks - {t}), s.tasks[t].service, s.tasks[t].result)
      else s
    case SeeEmpty =>
      if s.manager.Holding? && s.tasks == map[] then s.(manager := DoneOk, lock := Free) else s
    case Restart =>
      if !s.manager.Restarting? then s
      else if !s.running then s.(manager := DoneErr, lock := Free)
      else Spawn(s, s.manager.service).(manager := Looping, lock := Free)
  }

  function Exec(s: State, steps: seq<Step>): State
    decreases |steps|
  {
    if steps == [] then s else Do(Exec(s, steps[..|steps| - 1]), steps[|steps| - 1])
  }

  lemma ExecSnoc(s: State, steps: seq<Step>, a: Step)
    ensures Exec(s, steps + [a]) == Do(Exec(s, steps), a)
  {
    assert (steps + [a])[..|steps|] == steps;
  }

  /** The steps of `start` and of a server that goes down meanwhile. */
  predicate OfStart(steps: seq<Step>) {
    steps != [] && steps[0] == Begin && forall a :: a in steps[1..] ==> a.StartNext? || a.Shutdown?
  }

  /** The tasks from `first` on are new, one live task for each of the first `n` services. */
  predicate Spawned(old': map<nat, Task>, new': map<nat, Task>, services: seq<Service>, first: nat, n: int) {
    && 0 <= n <= |services|
    && (forall t :: first <= t < first + n ==> t in new' && new'[t] == Live(services[t - first]))
    && (forall t :: t in new' && !(first <= t < first + n) ==> t in old' && new'[t] == old'[t])
  }

  lemma SpawnNone(tasks: map<nat, Task>, services: seq<Service>, first: nat)
    ensures Spawned(tasks, tasks, services, first, 0)
  {
  }

  lemma SpawnMore(old': map<nat, Task>, new': map<nat, Task>, services: seq<Service>, first: nat, n: nat)
    requires Spawned(old', new', services, first, n) && n < |services|
    ensures Spawned(old', new'[first + n := Live(services[n])], services, first, n + 1)
  {
  }

  lemma BeginRun(s: State)
    ensures Exec(s, [Begin]) == Do(s, Begin) && OfStart([Begin])
  {
    assert Exec(s, []) == s;
    ExecSnoc(s, [], Begin);
  }

  lemma StartRun(s: State, steps: seq<Step>, a: Step)
    requires OfStart(steps) && (a.StartNext? || a.Shutdown?)
    ensures Exec(s, steps + [a]) == Do(Exec(s, steps), a) && OfStart(steps + [a])
  {
    ExecSnoc(s, steps, a);
    assert (steps + [a])[1..] == steps[1..] + [a];
  }

  // ----------------------------------------------------------- the code under the lock

  /** The manager object, with the sections that run under the workers lock. A shutdown that comes in
      between is a parameter of the methods. */
  class Runtime {
    var running: bool
    const services: seq<Service>
    var lock: Lock
    var starter: Starter
    var manager: Manager
    var tasks: map<nat, Task>
    var nextTask: nat
    var last: map<Service, Verdict>

    ghost function Abs(): State
      reads this
    {
      State(running, services, lock, starter, manager, tasks, nextTask, last)
    }

    constructor (services: seq<Service>)
      ensures Abs() == Init(services)
    {
      this.services := services;
      running, lock, starter, manager := true, Free, Unstarted, Absent;
      tasks, nextTask, last := map[], 0, map[];
    }

    method StartWorker(service: Service) returns (ok: bool)
      modifies this`tasks, this`nextTask
      ensures ok == running && Abs() == if ok then Spawn(old(Abs()), service) else old(Abs())
    {
      if !running {
        return false;
      }
      tasks, nextTask := tasks[nextTask := Live(service)], nextTask + 1;
      ok := true;
    }

    /** `start`, with the server stopped in front of spawn number `stopAt`: a run of the steps `Begin`,
        `StartNext` and `Shutdown` that ends with the lock released. */
    method Start(stopAt: nat) returns (ok: bool, ghost steps: seq<Step>)
      requires starter.Unstarted? && lock.Free?
      modifies this
      ensures Abs() == Exec(old(Abs()), steps)
      ensures OfStart(steps)
      ensures lock.Free? && manager.Looping? && (if ok then starter.Started? else starter.StartFailed?)
      ensures ok <==> services == [] || (old(running) && stopAt >= |services|)
      ensures nextTask == old(nextTask) + if !old(running) then 0 else if stopAt < |services| then stopAt else |services|
      ensures Spawned(old(tasks), tasks, services, old(nextTask), nextTask - old(nextTask))
    {
      hide Exec, OfStart, Spawned;
      ghost var s := Abs();
      assert Spawned(s.tasks, tasks, services, nextTask, 0) by { SpawnNone(tasks, services, nextTask); }
      lock, starter, manager := ByStarter, Starting(services), Looping;
      steps := [Begin];
      BeginRun(s);
      for i := 0 to |services|
        invariant Abs() == Exec(s, steps) && OfStart(steps)
        invariant lock.ByStarter? && manager.Looping? && starter == Starting(services[i..])
        invariant nextTask == s.nextTask + i && running == s.running && (i > 0 ==> running && i <= stopAt)
        invariant Spawned(s.tasks, tasks, services, s.nextTask, i)
      {
        if i == stopAt {
          running := false;
          StartRun(s, steps, Shutdown);
          steps := steps + [Shutdown];
        }
        assert services[i..][0] == services[i] && services[i..][1..] == services[i + 1..];
        StartRun(s, steps, StartNext);
        steps := steps + [StartNext];
        SpawnMore(s.tasks, tasks, services, s.nextTask, i);
        ok := StartWorker(services[i]);
        if !ok {
          starter, lock := StartFailed, Free;
          return;
        }
        starter := Starting(services[i + 1..]);
      }
      StartRun(s, steps, StartNext);
      steps := steps + [StartNext];
      starter, lock := Started, Free;
      ok := true;
    }

    /** `handle_result` for a finished task; `stops` tells whether the server goes down during the
        restart delay. It is `Join`, possibly `Shutdown`, and `Restart`. */
    method HandleResult(t: nat, stops: bool) returns (ok: bool)
      requires manager.Holding? && t in tasks && tasks[t].Ended?
      modifies this
      ensures var s := Do(old(Abs()), Join(t));
              Abs() == Do(if stops && s.manager.Restarting? then Do(s, Shutdown) else s, Restart)
      ensures ok <==> !manager.DoneErr?
      ensures var x := old(tasks)[t];
              ok <==> !old(running) || x.result.Fine? || (x.result.Panic? && !stops)
      ensures var x := old(tasks)[t];
              tasks == if old(running) && x.result.Panic? && !stops then (old(tasks) - {t})[old(nextTask) := Live(x.service)]
                       else old(tasks) - {t}
    {
      var task := tasks[t];
      tasks := tasks - {t};
      last := last[task.service := Verdict(task.result, running)];
      lock, manager := Free, Looping;
      if task.result.Fine? || !running {
        return true;
      }
      if task.result.Failure? {
        manager := DoneErr;
        return false;
      }
      if stops {
        running := false;
      }
      ok := StartWorker(task.service);
      if !ok {
        manager := DoneErr;
      }
    }
  }

  // ------------------------------------------------------------------------ invariant

  predicate Distinct(xs: seq<Service>) {
    forall i, j :: 0 <= i < j < |xs| ==> xs[i] != xs[j]
  }

  predicate Todo(s: State, x: Service) {
    s.starter.Starting? && x in s.starter.todo
  }

  ghost predicate HasTask(s: State, x: Service) {
    exists t :: t in s.tasks && s.tasks[t].service == x
  }

  /** The last result of `x` ended it for good: it was fine, or the server was going down. */
  predicate Settled(s: State, x: Service) {
    x in s.last && (s.last[x].result.Fine? || !s.last[x].running)
  }

  predicate Locks(s: State) {
    && (s.lock.ByStarter? <==> s.starter.Starting?)
    && (s.lock.ByManager? <==> s.manager.Holding? || s.manager.Restarting?)
    && (s.manager.Absent? <==> s.starter.Unstarted?)
    && (s.starter.StartFailed? ==> !s.running)
  }

  ghost predicate Single(s: State) {
    && (forall t :: t in s.tasks ==> t < s.nextTask)
    && (forall t, u :: t in s.tasks && u in s.tasks && t != u ==> s.tasks[t].service != s.tasks[u].service)
    && (s.starter.Starting? ==> Distinct(s.starter.todo))
    && (forall t :: t in s.tasks ==> !Todo(s, s.tasks[t].service))
    && (s.manager.Restarting? ==> !HasTask(s, s.manager.service) && !Todo(s, s.manager.service))
    && (s.starter.Unstarted? ==> s.tasks == map[])
  }

  /** Every service is waiting to be started, in the join set, about to be restarted, settled, or
      given up because of an error. */
  ghost predicate Accounted(s: State) {
    s.starter.Unstarted? || s.manager.DoneErr? || s.starter.StartFailed? || forall x :: x in s.services ==>
      Todo(s, x) || HasTask(s, x) || s.manager == Restarting(x) || Settled(s, x)
  }

  /** After a failed start, the services that were started are still accounted for. */
  ghost predicate Remembered(s: State) {
    s.manager.DoneErr? || forall x :: x in s.last ==>
      HasTask(s, x) || s.manager == Restarting(x) || Settled(s, x)
  }

  ghost predicate Inv(s: State) {
    Distinct(s.services) && Locks(s) && Single(s) && Accounted(s) && Remembered(s)
  }

  lemma SpawnHasTask(s: State, x: Service)
    ensures forall y :: HasTask(Spawn(s, x), y) ==> HasTask(s, y) || y == x
    ensures (forall t :: t in s.tasks ==> t < s.nextTask) ==>
              HasTask(Spawn(s, x), x) && forall y :: HasTask(s, y) ==> HasTask(Spawn(s, x), y)
  {
    var r := Spawn(s, x);
    assert r.tasks[s.nextTask].service == x;
    forall y | HasTask(s, y) && (forall t :: t in s.tasks ==> t < s.nextTask)
      ensures HasTask(r, y)
    {
      var t :| t in s.tasks && s.tasks[t].service == y;
      assert r.tasks[t].service == y;
    }
  }

  lemma StartInv(s: State)
    requires Inv(s)
    ensures Inv(Do(s, StartNext))
  {
    var r := Do(s, StartNext);
    if s.starter.Starting? && s.starter.todo != [] && s.running {
      var x := s.starter.todo[0];
      SpawnHasTask(s, x);
      assert forall y :: HasTask(r, y) <==> HasTask(Spawn(s, x), y);
      assert forall y :: y in s.starter.todo <==> y == x || y in r.starter.todo;
    } else {
      assert forall y :: HasTask(r, y) <==> HasTask(s, y);
    }
  }

  lemma RestartInv(s: State)
    requires Inv(s)
    ensures Inv(Do(s, Restart))
  {
    var r := Do(s, Restart);
    if s.manager.Restarting? && s.running {
      var x := s.manager.service;
      SpawnHasTask(s, x);
      assert forall y :: HasTask(r, y) <==> HasTask(Spawn(s, x), y);
    } else {
      assert forall y :: HasTask(r, y) <==> HasTask(s, y);
    }
  }

  lemma EndInv(s: State, t: nat, result: Result)
    requires Inv(s)
    ensures Inv(Do(s, End(t, result)))
  {
    var r := Do(s, End(t, result));
    forall y | HasTask(s, y)
      ensures HasTask(r, y)
    {
      var u :| u in s.tasks && s.tasks[u].service == y;
      assert u in r.tasks && r.tasks[u].service == y;
    }
    assert forall y :: HasTask(r, y) ==> HasTask(s, y);
  }

  lemma JoinInv(s: State, t: nat)
    requires Inv(s)
    ensures Inv(Do(s, Join(t)))
  {
    var r := Do(s, Join(t));
    if r != s {
      var x := s.tasks[t].service;
      forall y | HasTask(s, y) && y != x
        ensures HasTask(r, y)
      {
        var u :| u in s.tasks && s.tasks[u].service == y;
        assert u in r.tasks && r.tasks[u].service == y;
      }
      assert forall y :: HasTask(r, y) ==> HasTask(s, y) && y != x;
    }
  }

  lemma StepInv(s: State, a: Step)
    requires Inv(s)
    ensures Inv(Do(s, a))
  {
    match a
    case StartNext => StartInv(s);
    case Restart => RestartInv(s);
    case End(t, result) => EndInv(s, t, result);
    case Join(t) => JoinInv(s, t);
    case _ =>
      var r := Do(s, a);
      assert forall y :: HasTask(r, y) <==> HasTask(s, y);
  }

  lemma InitInv(services: seq<Service>)
    requires Distinct(services)
    ensures Inv(Init(services))
  {
  }

  lemma {:induction false} ExecInv(services: seq<Service>, steps: seq<Step>)
    requires Distinct(services)
    ensures Inv(Exec(Init(services), steps)) && Exec(Init(services), steps).services == services
    decreases |steps|
  {
    hide Inv, Distinct;
    InitInv(services);
    if steps != [] {
      var rest := steps[..|steps| - 1];
      ExecInv(services, rest);
      StepInv(Exec(Init(services), rest), steps[|steps| - 1]);
    }
  }

  // ------------------------------------------------------------------------- theorems

  /** In every reachable state each service has at most one task, live or not yet joined. */
  lemma AtMostOneWorker(services: seq<Service>, steps: seq<Step>, t: nat, u: nat)
    requires Distinct(services)
    requires var s := Exec(Init(services), steps);
             t in s.tasks && u in s.tasks && s.tasks[t].service == s.tasks[u].service
    ensures t == u
  {
    ExecInv(services, steps);
  }

  /** Until `start` has begun there is no task, so after a successful one each service has exactly the task that it
      was given. */
  lemma {:induction false} NoTaskBefore(services: seq<Service>, steps: seq<Step>)
    requires Exec(Init(services), steps).starter.Unstarted?
    ensures var s := Exec(Init(services), steps);
            s.tasks == map[] && s.nextTask == 0 && s.lock.Free? && s.manager.Absent? && s.services == services
    decreases |steps|
  {
    if steps != [] {
      NoTaskBefore(services, steps[..|steps| - 1]);
    }
  }

  /** The manager cannot finish while `start` is still spawning workers. */
  lemma NoEarlyFinish(services: seq<Service>, steps: seq<Step>)
    requires Distinct(services) && Exec(Init(services), steps).starter.Starting?
    ensures Exec(Init(services), steps).manager == Looping
  {
    ExecInv(services, steps);
    NotDoneWhileStarting(services, steps);
  }

  lemma {:induction false} NotDoneWhileStarting(services: seq<Service>, steps: seq<Step>)
    requires Distinct(services)
    ensures var s := Exec(Init(services), steps);
            s.starter.Unstarted? || s.starter.Starting? ==> !s.manager.DoneOk? && !s.manager.DoneErr?
    decreases |steps|
  {
    if steps != [] {
      var rest := steps[..|steps| - 1];
      NotDoneWhileStarting(services, rest);
      ExecInv(services, rest);
    }
  }

  lemma {:induction false} DoneLeavesNothing(services: seq<Service>, steps: seq<Step>)
    requires Distinct(services) && Exec(Init(services), steps).manager.DoneOk?
    ensures Exec(Init(services), steps).tasks == map[]
    decreases |steps|
  {
    if steps != [] {
      var rest := steps[..|steps| - 1];
      var s := Exec(Init(services), rest);
      if s.manager.DoneOk? {
        DoneLeavesNothing(services, rest);
        NotDoneWhileStarting(services, rest);
      }
    }
  }

  /** The manager gets on: it can take the lock whenever it is free, joins any ended task, and ends when there is
      none left. */
  lemma ManagerProgress(s: State)
    requires s.manager.Looping? && s.lock.Free?
    ensures s.tasks == map[] ==> Do(Do(s, Acquire), SeeEmpty).manager == DoneOk
    ensures forall t :: t in s.tasks && s.tasks[t].Ended? ==> Do(Do(s, Acquire), Join(t)).tasks == s.tasks - {t}
    ensures forall t :: t in s.tasks && s.tasks[t].Ended? ==>
              Do(Do(s, Acquire), Join(t)).last == s.last[s.tasks[t].service := Verdict(s.tasks[t].result, s.running)]
  {
  }

  /** A manager that finishes Ok leaves no worker behind, and no panic or failure was dropped while
      the server was running: each service ended fine or during shutdown, or was never started
      because `start` itself was cut off by the shutdown. */
  lemma CleanFinish(services: seq<Service>, steps: seq<Step>)
    requires Distinct(services) && Exec(Init(services), steps).manager.DoneOk?
    ensures var s := Exec(Init(services), steps);
            && s.tasks == map[]
            && (forall x :: x in services ==> Settled(s, x) || (x !in s.last && s.starter.StartFailed? && !s.running))
  {
    ExecInv(services, steps);
    DoneLeavesNothing(services, steps);
    NotDoneWhileStarting(services, steps);
  }
}
