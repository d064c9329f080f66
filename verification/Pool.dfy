/** The database thread pool: bounded queues, worker threads grouped by queue, and shutdown. */
module Pool {
  import opened Sequences

  /** A submitted command; `hasChannel` is its not yet taken result channel. */
  datatype Cmd = Cmd(id: nat, hasChannel: bool)

  datatype Worker = Waiting | Busy(id: nat) | Exited | Panicked

  /** What became of an accepted command. */
  datatype Fate = Queued(queue: nat) | Running(worker: nat) | Answered(worker: nat) | Abandoned(worker: nat)

  datatype State = State(
    queues: seq<seq<Cmd>>,
    closed: seq<bool>,
    workers: seq<Worker>,
    fate: map<nat, Fate>,
    takes: seq<nat>,
    gone: set<nat>)

  /** Worker `id` serves one queue for life. */
  function Group(id: nat, queues: nat): nat
    requires queues > 0
  {
    id % queues
  }

  /** How many of the first `n` workers serve queue `q`. */
  function Crew(n: nat, queues: nat, q: nat): nat
    requires queues > 0
  {
    if n == 0 then 0 else Crew(n - 1, queues, q) + (if Group(n - 1, queues) == q then 1 else 0)
  }

  /** The pool as `new` returns it: the receivers are gone but for the clones of the workers, so a queue
      without a worker has no receiver and is closed. */
  function Init(workers: nat, queues: nat): State
    requires queues > 0
  {
    State(seq(queues, _ => []), seq(queues, q requires 0 <= q < queues => Crew(workers, queues, q) == 0),
          seq(workers, _ => Waiting), map[], [], {})
  }

  // -------------------------------------------------------------- spawning and closing

  /** The sequential parts: spawning workers and closing the queues. */
  class Spawner {
    const queues: nat
    var groups: seq<nat>
    var closed: seq<bool>

    constructor (queues: nat)
      requires queues > 0
      ensures this.queues == queues && groups == [] && closed == seq(queues, _ => false)
    {
      this.queues, groups, closed := queues, [], seq(queues, _ => false);
    }

    method SpawnUntil(count: nat)
      requires queues > 0 && groups == []
      modifies this`groups
      ensures |groups| == count && forall i :: 0 <= i < count ==> groups[i] == Group(i, queues)
    {
      while |groups| < count
        invariant |groups| <= count
        invariant forall i :: 0 <= i < |groups| ==> groups[i] == Group(i, queues)
      {
        SpawnOne();
      }
    }

    method SpawnOne()
      requires queues > 0
      modifies this`groups
      ensures groups == old(groups) + [Group(|old(groups)|, queues)]
    {
      var id := |groups|;
      groups := groups + [Group(id, queues)];
    }

    /** The end of `new`: the receivers go out of scope, and a channel closes with its last receiver; the
        worker of group `q` holds a clone of receiver `q`. */
    method DropReceivers()
      requires queues > 0 && |closed| == queues
      requires forall i :: 0 <= i < |groups| ==> groups[i] == Group(i, queues)
      modifies this`closed
      ensures closed == Init(|groups|, queues).closed
    {
      for q := 0 to queues
        invariant |closed| == queues && forall p :: 0 <= p < q ==> closed[p] == (Crew(|groups|, queues, p) == 0)
      {
        Clones(groups, queues, q);
        closed := closed[q := q !in groups];
      }
    }

    method CloseQueues()
      requires |closed| == queues
      modifies this`closed
      ensures |closed| == queues && forall q :: 0 <= q < queues ==> closed[q]
    {
      for q := 0 to queues
        invariant |closed| == queues && forall p :: 0 <= p < q ==> closed[p]
      {
        closed := closed[q := true];
      }
    }
  }

  lemma Successor(n: nat, q: nat)
    requires q > 0
    ensures n % q + 1 < q ==> (n + 1) / q == n / q && (n + 1) % q == n % q + 1
    ensures n % q + 1 == q ==> (n + 1) / q == n / q + 1 && (n + 1) % q == 0
  {
    var (d, r) := (n / q, n % q);
    assert n + 1 == d * q + (r + 1);
    if r + 1 < q {
      Quotient(n + 1, q, d, r + 1);
    } else {
      assert (d + 1) * q == d * q + q;
      Quotient(n + 1, q, d + 1, 0);
    }
  }

  lemma Quotient(n: nat, q: nat, d: nat, r: nat)
    requires q > 0 && r < q && n == d * q + r
    ensures n / q == d && n % q == r
  {
    var (e, m) := (n / q, n % q);
    assert n == e * q + m && 0 <= m < q by { Division(n, q); }
    assert (d + 1) * q == d * q + q && (e + 1) * q == e * q + q;
    if e > d {
      Times(d + 1, e, q);
      assert false;
    }
    if e < d {
      Times(e + 1, d, q);
      assert false;
    }
  }

  lemma Division(n: nat, q: nat)
    requires q > 0
    ensures n == (n / q) * q + n % q && 0 <= n % q < q
  {
  }

  lemma {:induction false} Times(a: nat, b: nat, q: nat)
    requires a <= b
    ensures a * q <= b * q
  {
    assert b * q == a * q + (b - a) * q;
  }

  /** The modulo grouping spreads the workers evenly, the remainder over the first queues. */
  lemma {:induction false} EvenCrews(n: nat, queues: nat, q: nat)
    requires q < queues
    ensures Crew(n, queues, q) == n / queues + (if q < n % queues then 1 else 0)
  {
    if n == 0 {
      Quotient(0, queues, 0, 0);
    } else {
      EvenCrews(n - 1, queues, q);
      Successor(n - 1, queues);
    }
  }

  /** Exactly the queues below the number of workers have one. */
  lemma Served(workers: nat, queues: nat, q: nat)
    requires q < queues
    ensures Crew(workers, queues, q) > 0 <==> q < workers
  {
    EvenCrews(workers, queues, q);
    Division(workers, queues);
    if workers < queues {
      Quotient(workers, queues, 0, workers);
    }
  }

  lemma Clones(groups: seq<nat>, queues: nat, q: nat)
    requires q < queues && forall i :: 0 <= i < |groups| ==> groups[i] == Group(i, queues)
    ensures q in groups <==> Crew(|groups|, queues, q) > 0
  {
    Served(|groups|, queues, q);
    if q < |groups| {
      Quotient(q, queues, 0, q);
      assert groups[q] == q;
    } else {
      forall i | 0 <= i < |groups|
        ensures groups[i] == i
      {
        Quotient(i, queues, 0, i);
      }
    }
  }

  // ------------------------------------------------------------- interleaved execution

  datatype Step =
    | Submit(id: nat, queue: nat)
    | Hangup(id: nat)
    | Take(worker: nat)
    | Handle(worker: nat)
    | CloseQueue(queue: nat)
    | Exit(worker: nat)

  /** One atomic action; an action that is not enabled changes nothing. */
  function Do(s: State, a: Step): State
    requires |s.queues| == |s.closed| > 0
  {
    match a
    case Submit(id, q) =>
      if q < |s.queues| && !s.closed[q] && id !in s.fate then
        s.(queues := s.queues[q := s.queues[q] + [Cmd(id, true)]], fate := s.fate[id := Queued(q)])
      else s
    case Hangup(id) => s.(gone := s.gone + {id})
    case Take(w) =>
      if w < |s.workers| && s.workers[w].Waiting? && s.queues[Group(w, |s.queues|)] != [] then
        var q := Group(w, |s.queues|);
        var cmd := s.queues[q][0];
        s.(queues := s.queues[q := s.queues[q][1..]],
           workers := s.workers[w := if cmd.hasChannel then Busy(cmd.id) else Panicked],
           fate := s.fate[cmd.id := Running(w)], takes := s.takes + [cmd.id])
      else s
    case Handle(w) =>
      if w < |s.workers| && s.workers[w].Busy? then
        var id := s.workers[w].id;
        s.(workers := s.workers[w := Waiting],
           fate := s.fate[id := if id in s.gone then Abandoned(w) else Answered(w)])
      else s
    case CloseQueue(q) =>
      if q < |s.queues| then s.(closed := s.closed[q := true]) else s
    case Exit(w) =>
      if w < |s.workers| && s.workers[w].Waiting? && s.closed[Group(w, |s.queues|)]
         && s.queues[Group(w, |s.queues|)] == [] then
        s.(workers := s.workers[w := Exited])
      else s
  }

  function Exec(s: State, steps: seq<Step>): (r: State)
    requires |s.queues| == |s.closed| > 0
    ensures |r.queues| == |r.closed| == |s.queues| && |r.workers| == |s.workers|
    decreases |steps|
  {
    if steps == [] then s else Do(Exec(s, steps[..|steps| - 1]), steps[|steps| - 1])
  }

  /** `close` has returned: every queue is closed and every worker was joined. */
  predicate Joined(s: State) {
    (forall q :: 0 <= q < |s.closed| ==> s.closed[q]) && (forall w :: 0 <= w < |s.workers| ==> s.workers[w].Exited?)
  }

  // ------------------------------------------------------------------------ invariant

  ghost predicate QueueInv(s: State)
    requires |s.queues| == |s.closed| > 0
  {
    && (forall q, i :: 0 <= q < |s.queues| && 0 <= i < |s.queues[q]| ==>
          s.queues[q][i].hasChannel && s.queues[q][i].id in s.fate && s.fate[s.queues[q][i].id] == Queued(q))
    && (forall q, i, j :: 0 <= q < |s.queues| && 0 <= i < j < |s.queues[q]| ==> s.queues[q][i].id != s.queues[q][j].id)
    && (forall id :: id in s.fate && s.fate[id].Queued? ==>
          s.fate[id].queue < |s.queues| && Cmd(id, true) in s.queues[s.fate[id].queue])
  }

  ghost predicate WorkerInv(s: State)
    requires |s.queues| == |s.closed| > 0
  {
    && (forall w :: 0 <= w < |s.workers| ==> !s.workers[w].Panicked?)
    && (forall w :: 0 <= w < |s.workers| && s.workers[w].Busy? ==>
          s.workers[w].id in s.fate && s.fate[s.workers[w].id] == Running(w))
    && (forall id :: id in s.fate && s.fate[id].Running? ==>
          s.fate[id].worker < |s.workers| && s.workers[s.fate[id].worker] == Busy(id))
    && (forall w :: 0 <= w < |s.workers| && s.workers[w].Exited? ==>
          s.closed[Group(w, |s.queues|)] && s.queues[Group(w, |s.queues|)] == [])
  }

  ghost predicate FateInv(s: State) {
    && (forall id :: id in s.fate && s.fate[id].Abandoned? ==> id in s.gone)
    && (forall id :: id in s.takes <==> id in s.fate && !s.fate[id].Queued?)
    && (forall i, j :: 0 <= i < j < |s.takes| ==> s.takes[i] != s.takes[j])
  }

  /** Worker `q` is the first of queue `q`; where there is none, nothing gets in. */
  ghost predicate ServiceInv(s: State)
    requires |s.queues| == |s.closed| > 0
  {
    forall q :: |s.workers| <= q < |s.queues| ==> s.closed[q] && s.queues[q] == []
  }

  ghost predicate Inv(s: State) {
    |s.queues| == |s.closed| > 0 && QueueInv(s) && WorkerInv(s) && FateInv(s) && ServiceInv(s)
  }

  lemma InitInv(workers: nat, queues: nat)
    requires queues > 0
    ensures Inv(Init(workers, queues))
  {
    forall q | workers <= q < queues
      ensures Crew(workers, queues, q) == 0
    {
      Served(workers, queues, q);
    }
  }

  lemma SubmitInv(s: State, id: nat, q: nat)
    requires Inv(s)
    ensures Inv(Do(s, Submit(id, q)))
  {
    var s' := Do(s, Submit(id, q));
    if s' != s {
      assert s'.queues[q] == s.queues[q] + [Cmd(id, true)];
      forall x | x in s'.fate && s'.fate[x].Queued?
        ensures s'.fate[x].queue < |s'.queues| && Cmd(x, true) in s'.queues[s'.fate[x].queue]
      {
        assert x == id ==> s'.queues[q][|s.queues[q]|] == Cmd(id, true);
      }
    }
  }

  lemma TakeQueues(s: State, w: nat)
    requires Inv(s)
    ensures QueueInv(Do(s, Take(w)))
  {
    var s' := Do(s, Take(w));
    if s' != s {
      var q := Group(w, |s.queues|);
      var cmd := s.queues[q][0];
      assert s.queues[q] == [cmd] + s'.queues[q];
      forall x | x in s'.fate && s'.fate[x].Queued?
        ensures s'.fate[x].queue < |s'.queues| && Cmd(x, true) in s'.queues[s'.fate[x].queue]
      {
        assert x != cmd.id && Cmd(x, true) in s.queues[s.fate[x].queue];
      }
    }
  }

  lemma TakeInv(s: State, w: nat)
    requires Inv(s)
    ensures Inv(Do(s, Take(w)))
  {
    TakeQueues(s, w);
    var s' := Do(s, Take(w));
    if s' != s {
      var id := s.queues[Group(w, |s.queues|)][0].id;
      assert s.fate[id].Queued? && id !in s.takes;
    }
  }

  lemma HandleInv(s: State, w: nat)
    requires Inv(s)
    ensures Inv(Do(s, Handle(w)))
  {
  }

  lemma ClosingInv(s: State, a: Step)
    requires Inv(s) && (a.Hangup? || a.CloseQueue? || a.Exit?)
    ensures Inv(Do(s, a))
  {
  }

  lemma StepInv(s: State, a: Step)
    requires Inv(s)
    ensures Inv(Do(s, a))
  {
    hide Do, QueueInv, WorkerInv, FateInv, ServiceInv;
    match a
    case Submit(id, q) => SubmitInv(s, id, q);
    case Take(w) => TakeInv(s, w);
    case Handle(w) => HandleInv(s, w);
    case _ => ClosingInv(s, a);
  }

  lemma {:induction false} ExecInv(workers: nat, queues: nat, steps: seq<Step>)
    requires queues > 0
    ensures Inv(Exec(Init(workers, queues), steps))
    decreases |steps|
  {
    hide Inv, Do;
    InitInv(workers, queues);
    if steps != [] {
      var rest := steps[..|steps| - 1];
      ExecInv(workers, queues, rest);
      StepInv(Exec(Init(workers, queues), rest), steps[|steps| - 1]);
    }
  }

  // ------------------------------------------------------------------------ shutdown

  /** In every run of every pool: once `close` has joined the workers, no queue holds a command, and each
      accepted command was taken once and answered, unless its requester had gone. */
  lemma Shutdown(workers: nat, queues: nat, steps: seq<Step>)
    requires queues > 0
    requires Joined(Exec(Init(workers, queues), steps))
    ensures var s := Exec(Init(workers, queues), steps);
            && (forall q :: 0 <= q < queues ==> s.queues[q] == [])
            && (forall id :: id in s.fate ==> s.fate[id].Answered? || (s.fate[id].Abandoned? && id in s.gone))
            && (forall id :: id in s.fate <==> id in s.takes)
            && (forall i, j :: 0 <= i < j < |s.takes| ==> s.takes[i] != s.takes[j])
  {
    var s := Exec(Init(workers, queues), steps);
    ExecInv(workers, queues, steps);
    forall q | 0 <= q < queues
      ensures s.queues[q] == []
    {
      if q < workers {
        Quotient(q, queues, 0, q);
        assert s.workers[q].Exited? && Group(q, queues) == q;
      }
    }
  }

  // -------------------------------------------------------------- close terminates

  function Waiters(queues: seq<seq<Cmd>>): nat {
    if queues == [] then 0 else |queues[0]| + Waiters(queues[1..])
  }

  function Effort(workers: seq<Worker>): nat {
    if workers == [] then 0
    else (match workers[0] case Waiting => 1 case Busy(_) => 2 case _ => 0) + Effort(workers[1..])
  }

  /** The worker actions that are left once nothing can be submitted any more. */
  function Left(s: State): nat {
    2 * Waiters(s.queues) + Effort(s.workers)
  }

  lemma {:induction false} WaitersUpdate(queues: seq<seq<Cmd>>, q: nat, x: seq<Cmd>)
    requires q < |queues|
    ensures Waiters(queues[q := x]) + |queues[q]| == Waiters(queues) + |x|
  {
    if q > 0 {
      assert queues[q := x][1..] == queues[1..][q - 1 := x];
      WaitersUpdate(queues[1..], q - 1, x);
    } else {
      assert queues[q := x][1..] == queues[1..];
    }
  }

  lemma {:induction false} EffortUpdate(workers: seq<Worker>, w: nat, x: Worker)
    requires w < |workers|
    ensures Effort(workers[w := x]) + Effort([workers[w]]) == Effort(workers) + Effort([x])
  {
    assert Effort([workers[w]][1..]) == 0 && Effort([x][1..]) == 0;
    if w > 0 {
      assert workers[w := x][1..] == workers[1..][w - 1 := x];
      EffortUpdate(workers[1..], w - 1, x);
    } else {
      assert workers[w := x][1..] == workers[1..];
    }
  }

  predicate AllClosed(s: State) {
    forall q :: 0 <= q < |s.closed| ==> s.closed[q]
  }

  predicate WorkerAction(a: Step) {
    a.Take? || a.Handle? || a.Exit?
  }

  /** After the queues were closed every action of a worker uses up the work that is left, and no
      other action adds to it. */
  lemma ClosedStep(s: State, a: Step)
    requires Inv(s) && AllClosed(s)
    ensures WorkerAction(a) ==> Do(s, a) == s || Left(Do(s, a)) < Left(s)
    ensures !WorkerAction(a) ==> Left(Do(s, a)) == Left(s)
    ensures AllClosed(Do(s, a))
  {
    if WorkerAction(a) && Do(s, a) != s {
      var w := a.worker;
      var s' := Do(s, a);
      EffortUpdate(s.workers, w, s'.workers[w]);
      assert s'.workers == s.workers[w := s'.workers[w]];
      if a.Take? {
        var q := Group(w, |s.queues|);
        WaitersUpdate(s.queues, q, s.queues[q][1..]);
      }
      hide Waiters;
      assert Effort([Waiting]) == 1 && Effort([Exited]) == 0 && Effort([s.workers[w]][1..]) == 0;
    }
  }

  /** The worker actions of a run that change something. */
  function Actions(s: State, steps: seq<Step>): nat
    requires |s.queues| == |s.closed| > 0
    decreases |steps|
  {
    if steps == [] then 0
    else
      var (init, last) := (steps[..|steps| - 1], steps[|steps| - 1]);
      var t := Exec(s, init);
      Actions(s, init) + (if WorkerAction(last) && Do(t, last) != t then 1 else 0)
  }

  /** Whatever the schedule, the workers of a closed pool act at most `Left` times more. */
  lemma {:induction false} ActionsBounded(s: State, steps: seq<Step>)
    requires Inv(s) && AllClosed(s)
    ensures var t := Exec(s, steps);
            Inv(t) && AllClosed(t) && Actions(s, steps) + Left(t) <= Left(s)
    decreases |steps|
  {
    hide Do, QueueInv, WorkerInv, FateInv, AllClosed, Left;
    if steps != [] {
      var (init, last) := (steps[..|steps| - 1], steps[|steps| - 1]);
      ActionsBounded(s, init);
      StepInv(Exec(s, init), last);
      ClosedStep(Exec(s, init), last);
    }
  }

  /** A closed pool in which no worker can act any more is joined. */
  lemma QuietIsJoined(s: State)
    requires Inv(s) && AllClosed(s)
    requires forall w :: 0 <= w < |s.workers| ==> Do(s, Take(w)) == s && Do(s, Handle(w)) == s && Do(s, Exit(w)) == s
    ensures Joined(s)
  {
    if !Joined(s) {
      var _, _ := NextAction(s);
    }
  }

  /** Until everyone is joined, some worker of a closed pool can act. */
  lemma NextAction(s: State) returns (w: nat, a: Step)
    requires Inv(s) && AllClosed(s) && !Joined(s)
    ensures w < |s.workers| && a in [Take(w), Handle(w), Exit(w)] && WorkerAction(a) && Do(s, a) != s
  {
    w :| 0 <= w < |s.workers| && !s.workers[w].Exited?;
    if s.workers[w].Busy? {
      a := Handle(w);
      assert Do(s, a).workers[w] == Waiting;
    } else if s.queues[Group(w, |s.queues|)] != [] {
      a := Take(w);
      assert Do(s, a).takes != s.takes;
    } else {
      a := Exit(w);
      assert Do(s, a).workers[w] == Exited;
    }
  }

  lemma {:induction false} ExecCons(s: State, a: Step, steps: seq<Step>)
    requires Inv(s) && Inv(Do(s, a))
    ensures Exec(s, [a] + steps) == Exec(Do(s, a), steps)
    decreases |steps|
  {
    hide Do, QueueInv, WorkerInv, FateInv;
    var all := [a] + steps;
    if steps == [] {
      assert all[..0] == [] && all == [a] && Exec(s, all[..0]) == s;
    } else {
      var (init, last) := (steps[..|steps| - 1], steps[|steps| - 1]);
      ExecCons(s, a, init);
      assert all[..|all| - 1] == [a] + init && all[|all| - 1] == last;
    }
  }

  /** From a closed pool some schedule joins all workers. */
  lemma {:induction false} ReachesJoined(s: State) returns (steps: seq<Step>)
    requires Inv(s) && AllClosed(s)
    ensures Joined(Exec(s, steps)) && |steps| <= Left(s)
    decreases Left(s)
  {
    if Joined(s) {
      steps := [];
    } else {
      var _, a := NextAction(s);
      hide Do, Inv, Joined, Left;
      StepInv(s, a);
      ClosedStep(s, a);
      steps := ReachesJoined(Do(s, a));
      ExecCons(s, a, steps);
      steps := [a] + steps;
    }
  }

  /** `close` ends. From every reachable state with closed queues: any continuation has at most `Left`
      effective worker actions, a continuation after which no worker can act has joined everyone, and
      such a continuation exists. */
  lemma CloseTerminates(workers: nat, queues: nat, before: seq<Step>, after: seq<Step>) returns (finish: seq<Step>)
    requires queues > 0 && AllClosed(Exec(Init(workers, queues), before))
    ensures var s := Exec(Init(workers, queues), before);
            var t := Exec(s, after);
            && Actions(s, after) + Left(t) <= Left(s)
            && ((forall w :: 0 <= w < workers ==> Do(t, Take(w)) == t && Do(t, Handle(w)) == t && Do(t, Exit(w)) == t)
                ==> Joined(t))
            && |finish| <= Left(t) && Joined(Exec(t, finish))
  {
    hide Inv, Do, Left;
    ExecInv(workers, queues, before);
    var s := Exec(Init(workers, queues), before);
    ActionsBounded(s, after);
    var t := Exec(s, after);
    if forall w :: 0 <= w < workers ==> Do(t, Take(w)) == t && Do(t, Handle(w)) == t && Do(t, Exit(w)) == t {
      QuietIsJoined(t);
    }
    finish := ReachesJoined(t);
  }

  /** Closing the queues below `n`. */
  lemma {:induction false} CloseBelow(s: State, n: nat) returns (steps: seq<Step>)
    requires |s.queues| == |s.closed| > 0 && Inv(s) && n <= |s.queues|
    ensures var t := Exec(s, steps);
            Inv(t) && (forall q :: 0 <= q < n ==> t.closed[q]) && t.queues == s.queues && t.workers == s.workers && t.fate == s.fate
    decreases n
  {
    hide Do, Inv;
    if n == 0 {
      steps := [];
    } else {
      var rest := CloseBelow(s, n - 1);
      steps := rest + [CloseQueue(n - 1)];
      assert steps[..|steps| - 1] == rest;
      CloseOne(Exec(s, rest), n - 1);
    }
  }

  lemma CloseOne(t: State, q: nat)
    requires Inv(t) && q < |t.queues|
    ensures var t' := Do(t, CloseQueue(q));
            Inv(t') && t'.closed == t.closed[q := true] && t'.queues == t.queues && t'.workers == t.workers && t'.fate == t.fate
  {
    StepInv(t, CloseQueue(q));
    hide Inv;
  }

  lemma {:induction false} ExecConcat(s: State, a: seq<Step>, b: seq<Step>)
    requires |s.queues| == |s.closed| > 0
    ensures Exec(s, a + b) == Exec(Exec(s, a), b)
    decreases |b|
  {
    hide Do;
    if b == [] {
      assert a + b == a;
    } else {
      assert (a + b)[..|a + b| - 1] == a + b[..|b| - 1];
      ExecConcat(s, a, b[..|b| - 1]);
    }
  }

  /** From every reachable state closing the queues and letting the workers go on joins them all. */
  lemma CloseDrains(workers: nat, queues: nat, before: seq<Step>) returns (steps: seq<Step>)
    requires queues > 0
    ensures Joined(Exec(Exec(Init(workers, queues), before), steps))
  {
    hide Inv, Do, Left, Joined, AllClosed;
    ExecInv(workers, queues, before);
    var s := Exec(Init(workers, queues), before);
    var close := CloseBelow(s, |s.queues|);
    var t := Exec(s, close);
    assert AllClosed(t) by { Closed(t); }
    var finish := ReachesJoined(t);
    ExecConcat(s, close, finish);
    steps := close + finish;
  }

  lemma Closed(s: State)
    requires |s.closed| == |s.queues| && forall q :: 0 <= q < |s.queues| ==> s.closed[q]
    ensures AllClosed(s)
  {
  }

  // ------------------------------------------------------------------- first in, first out

  function CmdIds(queue: seq<Cmd>): (ids: seq<nat>)
    ensures |ids| == |queue|
  {
    seq(|queue|, i requires 0 <= i < |queue| => queue[i].id)
  }

  /** The commands that queue `q` accepted in a run, in order. */
  function AcceptedBy(s: State, steps: seq<Step>, q: nat): seq<nat>
    requires |s.queues| == |s.closed| > 0
    decreases |steps|
  {
    if steps == [] then []
    else
      var (t, last) := (Exec(s, steps[..|steps| - 1]), steps[|steps| - 1]);
      AcceptedBy(s, steps[..|steps| - 1], q) + Entering(t, last, q)
  }

  /** What step `a` adds to queue `q`. */
  function Entering(t: State, a: Step, q: nat): seq<nat>
    requires |t.queues| == |t.closed| > 0
  {
    if a.Submit? && a.queue == q && a.id !in t.fate && a.id in Do(t, a).fate then [a.id] else []
  }

  /** What step `a` takes from queue `q`, as the record of the taken commands shows. */
  function Leaving(t: State, a: Step, q: nat): seq<nat>
    requires |t.queues| == |t.closed| > 0
  {
    var new' := Do(t, a).takes;
    if a.Take? && Group(a.worker, |t.queues|) == q && |new'| > |t.takes| then [new'[|t.takes|]] else []
  }

  /** The commands that workers took from queue `q` in a run, in order. */
  function TakenFrom(s: State, steps: seq<Step>, q: nat): seq<nat>
    requires |s.queues| == |s.closed| > 0
    decreases |steps|
  {
    if steps == [] then []
    else
      var (t, last) := (Exec(s, steps[..|steps| - 1]), steps[|steps| - 1]);
      TakenFrom(s, steps[..|steps| - 1], q) + Leaving(t, last, q)
  }

  lemma FifoStep(t: State, a: Step, q: nat)
    requires Inv(t) && q < |t.queues|
    ensures |Do(t, a).queues| == |t.queues|
    ensures Leaving(t, a, q) + CmdIds(Do(t, a).queues[q]) == CmdIds(t.queues[q]) + Entering(t, a, q)
  {
    hide QueueInv, WorkerInv, FateInv, ServiceInv;
  }

  /** What was taken from a queue and what is still in it is what it accepted, in the same order. */
  lemma {:induction false} Fifo(workers: nat, queues: nat, steps: seq<Step>, q: nat)
    requires q < queues
    ensures var init := Init(workers, queues);
            TakenFrom(init, steps, q) + CmdIds(Exec(init, steps).queues[q]) == AcceptedBy(init, steps, q)
    decreases |steps|
  {
    hide Inv, Do, CmdIds, Entering, Leaving;
    var init := Init(workers, queues);
    if steps == [] {
      assert CmdIds(init.queues[q]) == [] by { assert |CmdIds(init.queues[q])| == 0; }
    } else {
      var (front, last) := (steps[..|steps| - 1], steps[|steps| - 1]);
      var t := Exec(init, front);
      Fifo(workers, queues, front, q);
      ExecInv(workers, queues, front);
      FifoStep(t, last, q);
      FifoJoin(TakenFrom(init, front, q), CmdIds(t.queues[q]), AcceptedBy(init, front, q), TakenFrom(init, steps, q),
               CmdIds(Exec(init, steps).queues[q]), AcceptedBy(init, steps, q));
    }
  }

  lemma FifoJoin(a: seq<nat>, b: seq<nat>, c: seq<nat>, a': seq<nat>, b': seq<nat>, c': seq<nat>)
    requires a + b == c && a <= a' && c <= c' && a'[|a|..] + b' == b + c'[|c|..]
    ensures a' + b' == c'
  {
    assert a' == a + a'[|a|..] && c' == c + c'[|c|..];
    assert a' + b' == a + (a'[|a|..] + b') == (a + b) + c'[|c|..];
  }

  /** A command that was taken is answered, unless its requester has gone by then. */
  lemma Reply(s: State, w: nat)
    requires Inv(s) && w < |s.workers| && s.workers[w].Busy?
    ensures var (s', id) := (Do(s, Handle(w)), s.workers[w].id);
            && id in s'.fate && (s'.fate[id].Answered? <==> id !in s.gone) && (s'.fate[id].Abandoned? <==> id in s.gone)
            && s'.workers[w].Waiting?
    ensures Do(Do(s, Hangup(s.workers[w].id)), Handle(w)).fate[s.workers[w].id] == Abandoned(w)
  {
  }

  // ---------------------------------------------------------------- unserved queues

  /** Nobody has closed queue `q`. */
  predicate Open(steps: seq<Step>, q: nat) {
    forall i :: 0 <= i < |steps| ==> steps[i] != CloseQueue(q)
  }

  lemma {:induction false} StaysOpen(workers: nat, queues: nat, steps: seq<Step>, q: nat)
    requires q < queues && q < workers && Open(steps, q)
    ensures !Exec(Init(workers, queues), steps).closed[q]
    decreases |steps|
  {
    if steps == [] {
      Served(workers, queues, q);
    } else {
      var (init, last) := (steps[..|steps| - 1], steps[|steps| - 1]);
      assert last != CloseQueue(q);
      StaysOpen(workers, queues, init, q);
    }
  }

  /** In every run, a queue without a worker refuses every command and is empty. */
  lemma UnservedRefuses(workers: nat, queues: nat, steps: seq<Step>, q: nat, id: nat)
    requires workers <= q < queues
    ensures var s := Exec(Init(workers, queues), steps);
            s.queues[q] == [] && Do(s, Submit(id, q)) == s
  {
    ExecInv(workers, queues, steps);
  }

  /** Until a queue is closed it accepts a new command if and only if it has a worker. */
  lemma AcceptedExactly(workers: nat, queues: nat, steps: seq<Step>, q: nat, id: nat)
    requires q < queues && Open(steps, q) && id !in Exec(Init(workers, queues), steps).fate
    ensures var s := Exec(Init(workers, queues), steps);
            id in Do(s, Submit(id, q)).fate <==> q < workers
  {
    if q < workers {
      StaysOpen(workers, queues, steps, q);
    } else {
      UnservedRefuses(workers, queues, steps, q, id);
    }
  }

  // -------------------------------------------------------------------- configuration

  /** A hardware queue: the processors of it that are available, and its number of tags if known. */
  datatype Hardware = Hardware(shares: nat, tags: Option<nat>)

  datatype Settings = Settings(poolWorkers: nat, workersLimit: nat, requests: Option<nat>)

  function Min(a: nat, b: nat): nat {
    if a < b then a else b
  }

  function Clamp(x: nat, lo: nat, hi: nat): nat {
    if x < lo then lo else Min(x, hi)
  }

  /** The workers wanted for one hardware queue. */
  function Share(hw: Hardware, c: Settings): (n: nat)
    ensures n <= (if hw.tags.None? then 1 else hw.tags.value) && n <= c.workersLimit * hw.shares
    ensures c.requests.Some? ==> n <= c.requests.value
    ensures n == (if hw.tags.None? then 1 else hw.tags.value) || n == c.workersLimit * hw.shares || c.requests == Some(n)
  {
    var most := c.workersLimit * hw.shares;
    Min(if hw.tags.None? then 1 else hw.tags.value, if c.requests.None? then most else Min(c.requests.value, most))
  }

  function Shares(hws: seq<Hardware>, c: Settings): seq<nat> {
    if hws == [] then []
    else (if hws[0].shares > 0 then [Share(hws[0], c)] else []) + Shares(hws[1..], c)
  }

  function Tags(hws: seq<Hardware>): nat {
    if hws == [] then 0 else (if hws[0].tags.None? then 0 else hws[0].tags.value) + Tags(hws[1..])
  }

  function Sum(xs: seq<nat>): nat {
    if xs == [] then 0 else xs[0] + Sum(xs[1..])
  }

  /** `configure`: the workers to spawn and the number of queues. */
  function Configure(hws: seq<Hardware>, c: Settings): (nat, nat) {
    var counts := if hws == [] then [c.poolWorkers] else Shares(hws, c);
    var most := Clamp(if hws == [] then c.poolWorkers else Tags(hws), 1, 1024);
    (Clamp(Sum(counts), 1, most), |counts|)
  }

  lemma {:induction false} Untagged(hws: seq<Hardware>, c: Settings)
    requires forall i :: 0 <= i < |hws| ==> hws[i].tags.None? && hws[i].shares > 0
    ensures Tags(hws) == 0 && |Shares(hws, c)| == |hws|
  {
    if hws != [] {
      Untagged(hws[1..], c);
    }
  }

  /** `select_queue`: the queue of the caller's processor, or the first one if there is no such queue. */
  function Select(topology: seq<nat>, core: nat, queues: nat): nat
    requires core < |topology|
  {
    if topology[core] < queues then topology[core] else 0
  }

  /** On a device with queues of unknown depth a single worker is configured for all of them, so a request
      is accepted exactly when it is routed to the first queue. */
  lemma UntaggedDevice(hws: seq<Hardware>, c: Settings, topology: seq<nat>, core: nat, steps: seq<Step>, id: nat)
    requires hws != [] && forall i :: 0 <= i < |hws| ==> hws[i].tags.None? && hws[i].shares > 0
    requires core < |topology| && Open(steps, Select(topology, core, |hws|))
    requires id !in Exec(Init(1, |hws|), steps).fate
    ensures Configure(hws, c) == (1, |hws|)
    ensures var s := Exec(Init(1, |hws|), steps);
            id in Do(s, Submit(id, Select(topology, core, |hws|))).fate <==> topology[core] == 0 || topology[core] >= |hws|
  {
    hide Exec, Do;
    Untagged(hws, c);
    AcceptedExactly(1, |hws|, steps, Select(topology, core, |hws|), id);
  }

  /** Without hardware queues there is one queue with the configured number of workers, from 1 to 1024. */
  lemma NoHardware(c: Settings)
    ensures Configure([], c).1 == 1
    ensures 1 <= c.poolWorkers <= 1024 ==> Configure([], c).0 == c.poolWorkers
    ensures c.poolWorkers == 0 ==> Configure([], c).0 == 1
    ensures c.poolWorkers > 1024 ==> Configure([], c).0 == 1024
  {
    assert [c.poolWorkers][1..] == [];
    assert Sum([c.poolWorkers]) == c.poolWorkers;
  }

  lemma {:induction false} SharesBelowTags(hws: seq<Hardware>, c: Settings)
    requires forall i :: 0 <= i < |hws| ==> hws[i].tags.Some?
    ensures Sum(Shares(hws, c)) <= Tags(hws)
  {
    if hws != [] {
      var n := Share(hws[0], c);
      SharesBelowTags(hws[1..], c);
      assert ([n] + Shares(hws[1..], c))[1..] == Shares(hws[1..], c);
      assert [] + Shares(hws[1..], c) == Shares(hws[1..], c);
    }
  }

  lemma {:induction false} Tagged(hws: seq<Hardware>, c: Settings)
    requires c.workersLimit > 0 && (c.requests.Some? ==> c.requests.value > 0)
    requires forall i :: 0 <= i < |hws| ==> hws[i].tags.Some? && hws[i].tags.value > 0 && hws[i].shares > 0
    ensures Tags(hws) >= |hws| && |Shares(hws, c)| == |hws| && Sum(Shares(hws, c)) >= |hws|
  {
    if hws != [] {
      Tagged(hws[1..], c);
      Times(1, hws[0].shares, c.workersLimit);
      var n := Share(hws[0], c);
      assert n >= 1;
      assert ([n] + Shares(hws[1..], c))[1..] == Shares(hws[1..], c);
    }
  }

  /** With a known depth for each of at most 1024 queues there is a worker per queue: none refuses. */
  lemma TaggedDevice(hws: seq<Hardware>, c: Settings)
    requires 0 < |hws| <= 1024 && c.workersLimit > 0 && (c.requests.Some? ==> c.requests.value > 0)
    requires forall i :: 0 <= i < |hws| ==> hws[i].tags.Some? && hws[i].tags.value > 0 && hws[i].shares > 0
    ensures Configure(hws, c).1 == |hws| <= Configure(hws, c).0
    ensures Configure(hws, c).0 == Min(Sum(Shares(hws, c)), 1024)
  {
    Tagged(hws, c);
    SharesBelowTags(hws, c);
  }
}
