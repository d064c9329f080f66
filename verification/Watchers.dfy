/** Prefix watchers: waiters register a channel under a key prefix; `wake` scans under the read
    lock and then removes and signals under the write lock. */
module Watchers {
  import opened Bytes
  import opened Codec
  import opened CodecKeys

  type Key = seq<byte>
  type Chan = nat

  /** The shared map, the channels signalled so far, and the prefix each channel was made for. */
  datatype Hub = Hub(open: map<Key, Chan>, sent: set<Chan>, owner: map<Chan, Key>, next: Chan)

  function WatchHub(h: Hub, p: Key): (r: (Hub, Chan)) {
    if p in h.open then (h, h.open[p])
    else (Hub(h.open[p := h.next], h.sent, h.owner[h.next := p], h.next + 1), h.next)
  }

  /** One iteration of the removal loop. */
  function Signal(h: Hub, p: Key): Hub {
    if p in h.open then h.(open := h.open - {p}, sent := h.sent + {h.open[p]}) else h
  }

  function SignalAll(h: Hub, ps: seq<Key>): Hub
    decreases |ps|
  {
    if ps == [] then h else SignalAll(Signal(h, ps[0]), ps[1..])
  }

  /** `t` lists the registered prefixes of `key`, each once. */
  ghost predicate Triggers(h: Hub, key: Key, t: seq<Key>) {
    && (forall p :: p in t <==> p in h.open && p <= key)
    && (forall i, j :: 0 <= i < j < |t| ==> t[i] != t[j])
  }

  // ------------------------------------------------------------ the locked sections

  class Watchers {
    var watchers: map<Key, Chan>
    var sent: set<Chan>
    ghost var owner: map<Chan, Key>
    var next: Chan

    ghost function Abs(): Hub
      reads this
    {
      Hub(watchers, sent, owner, next)
    }

    constructor ()
      ensures Abs() == Hub(map[], {}, map[], 0)
    {
      watchers, sent, owner, next := map[], {}, map[], 0;
    }

    method Watch(prefix: Key) returns (rx: Chan)
      modifies this
      ensures (Abs(), rx) == WatchHub(old(Abs()), prefix)
    {
      if prefix in watchers {
        rx := watchers[prefix];
      } else {
        rx := next;
        watchers, owner, next := watchers[prefix := rx], owner[rx := prefix], next + 1;
      }
    }

    /** First phase of `wake`, under the read lock. */
    method Scan(key: Key) returns (triggered: seq<Key>)
      ensures Triggers(Abs(), key, triggered)
    {
      triggered := [];
      for length := 0 to |key| + 1
        invariant forall p :: p in triggered <==> p in watchers && p <= key && |p| < length
        invariant forall i, j :: 0 <= i < j < |triggered| ==> triggered[i] != triggered[j]
      {
        var p := key[..length];
        if p in watchers {
          triggered := triggered + [p];
        }
        assert forall q :: q <= key && |q| == length ==> q == p;
      }
    }

    /** Second phase of `wake`, under the write lock. */
    method RemoveAndSend(triggered: seq<Key>)
      modifies this
      ensures Abs() == SignalAll(old(Abs()), triggered)
    {
      var i := 0;
      while i < |triggered|
        invariant 0 <= i <= |triggered|
        invariant SignalAll(old(Abs()), triggered) == SignalAll(Abs(), triggered[i..])
      {
        var p := triggered[i];
        if p in watchers {
          sent := sent + {watchers[p]};
          watchers := watchers - {p};
        }
        assert triggered[i..][1..] == triggered[i + 1..];
        i := i + 1;
      }
    }
  }

  lemma {:induction false} SignalAllEffect(h: Hub, ps: seq<Key>)
    ensures var g := SignalAll(h, ps);
            && g.owner == h.owner && g.next == h.next
            && (forall p :: p in g.open <==> p in h.open && p !in ps)
            && (forall p :: p in g.open ==> g.open[p] == h.open[p])
            && (forall c :: c in g.sent <==> c in h.sent || exists p :: p in ps && p in h.open && h.open[p] == c)
    decreases |ps|
  {
    if ps != [] {
      var m := Signal(h, ps[0]);
      SignalAllEffect(m, ps[1..]);
      assert forall p :: p in ps <==> p == ps[0] || p in ps[1..];
    }
  }

  // ---------------------------------------------------------- interleaved executions

  datatype Waiter = Waiter(prefix: Key, chan: Chan)

  /** A thread between the two phases of `wake`. */
  datatype Waker = Waker(key: Key, triggered: seq<Key>)

  datatype World = World(hub: Hub, waiters: map<nat, Waiter>, wakers: map<nat, Waker>)

  datatype Step =
    | Watch(w: nat, prefix: Key)
    | Forget(w: nat)
    | Scan(t: nat, key: Key)
    | Finish(t: nat)

  ghost predicate Next(s: World, a: Step, s': World) {
    match a
    case Watch(w, p) =>
      && w !in s.waiters
      && s' == s.(hub := WatchHub(s.hub, p).0, waiters := s.waiters[w := Waiter(p, WatchHub(s.hub, p).1)])
    case Forget(w) =>
      s' == s.(waiters := s.waiters - {w})
    case Scan(t, key) =>
      && t !in s.wakers && t in s'.wakers
      && s'.wakers[t].key == key && Triggers(s.hub, key, s'.wakers[t].triggered)
      && s' == s.(wakers := s.wakers[t := s'.wakers[t]])
    case Finish(t) =>
      && t in s.wakers
      && s' == s.(hub := SignalAll(s.hub, s.wakers[t].triggered), wakers := s.wakers - {t})
  }

  ghost predicate Run(states: seq<World>, steps: seq<Step>) {
    && |states| == |steps| + 1
    && states[0] == World(Hub(map[], {}, map[], 0), map[], map[])
    && (forall i :: 0 <= i < |steps| ==> Next(states[i], steps[i], states[i + 1]))
  }

  /** The channel made for prefix `p` is still registered, or it has been signalled. */
  predicate Secured(h: Hub, p: Key, c: Chan) {
    (p in h.open && h.open[p] == c) || c in h.sent
  }

  ghost predicate Inv(s: World) {
    && (forall p :: p in s.hub.open ==> s.hub.open[p] in s.hub.owner && s.hub.owner[s.hub.open[p]] == p)
    && (forall c :: c in s.hub.owner ==> c < s.hub.next)
    && (forall c :: c in s.hub.sent ==> c in s.hub.owner)
    && (forall p :: p in s.hub.open ==> s.hub.open[p] !in s.hub.sent)
    && (forall w :: w in s.waiters ==> Secured(s.hub, s.waiters[w].prefix, s.waiters[w].chan))
    && (forall w :: w in s.waiters ==> s.waiters[w].chan in s.hub.owner)
    && (forall w :: w in s.waiters ==> s.hub.owner[s.waiters[w].chan] == s.waiters[w].prefix)
  }

  /** No step loses a channel: removal signals it, and registration never replaces it. */
  lemma SecuredStep(s: World, a: Step, s': World, p: Key, c: Chan)
    requires Next(s, a, s') && Secured(s.hub, p, c)
    ensures Secured(s'.hub, p, c)
    ensures c in s.hub.sent ==> c in s'.hub.sent
  {
    if a.Finish? {
      SignalAllEffect(s.hub, s.wakers[a.t].triggered);
    }
  }

  lemma InvFinish(s: World, t: nat, s': World)
    requires Inv(s) && Next(s, Finish(t), s')
    ensures Inv(s')
  {
    SignalAllEffect(s.hub, s.wakers[t].triggered);
    hide SignalAll;
  }

  lemma InvWatch(s: World, w: nat, p: Key, s': World)
    requires Inv(s) && Next(s, Watch(w, p), s')
    ensures Inv(s')
  {
  }

  lemma InvStep(s: World, a: Step, s': World)
    requires Inv(s) && Next(s, a, s')
    ensures Inv(s')
  {
    match a
    case Finish(t) => InvFinish(s, t, s');
    case Watch(w, p) => InvWatch(s, w, p, s');
    case _ =>
  }

  lemma {:induction false} InvRun(states: seq<World>, steps: seq<Step>, k: nat)
    requires Run(states, steps) && k < |states|
    ensures Inv(states[k])
  {
    if k > 0 {
      InvRun(states, steps, k - 1);
      InvStep(states[k - 1], steps[k - 1], states[k]);
    }
  }

  lemma {:induction false} SecuredRun(states: seq<World>, steps: seq<Step>, i: nat, k: nat, p: Key, c: Chan)
    requires Run(states, steps) && i <= k < |states| && Secured(states[i].hub, p, c)
    ensures Secured(states[k].hub, p, c)
    ensures c in states[i].hub.sent ==> c in states[k].hub.sent
    decreases k - i
  {
    if i < k {
      SecuredRun(states, steps, i, k - 1, p, c);
      SecuredStep(states[k - 1], steps[k - 1], states[k], p, c);
    }
  }

  /** In every reachable state a pending `changed()` cannot fail: the sender of each waiter is
      still in the map, or it has already sent. */
  lemma SenderNeverVanishes(states: seq<World>, steps: seq<Step>, k: nat, w: nat)
    requires Run(states, steps) && k < |states| && w in states[k].waiters
    ensures Secured(states[k].hub, states[k].waiters[w].prefix, states[k].waiters[w].chan)
  {
    InvRun(states, steps, k);
  }

  /** Thread `t` is between its scan (step `i`) and its removal (step `j`). */
  predicate Waking(steps: seq<Step>, t: nat, key: Key, i: nat, j: nat) {
    && i < j < |steps| && steps[i] == Scan(t, key) && steps[j] == Finish(t)
    && (forall m :: i < m < j ==> steps[m] != Finish(t))
  }

  lemma {:induction false} WakerKept(states: seq<World>, steps: seq<Step>, t: nat, key: Key, i: nat, j: nat, m: nat)
    requires Run(states, steps) && Waking(steps, t, key, i, j) && i < m <= j
    ensures t in states[m].wakers && states[m].wakers[t] == states[i + 1].wakers[t]
    decreases m
  {
    assert Next(states[i], steps[i], states[i + 1]);
    if m > i + 1 {
      WakerKept(states, steps, t, key, i, j, m - 1);
      assert Next(states[m - 1], steps[m - 1], states[m]);
    }
  }

  /** No lost wakeup: when `wake(key)` completes, every waiter that was registered on a prefix of
      `key` before its scan has been signalled, whatever happened in between. */
  lemma NoLostWakeup(states: seq<World>, steps: seq<Step>, t: nat, key: Key, i: nat, j: nat, w: nat)
    requires Run(states, steps) && Waking(steps, t, key, i, j)
    requires w in states[i].waiters && states[i].waiters[w].prefix <= key
    ensures states[i].waiters[w].chan in states[j + 1].hub.sent
  {
    var Waiter(p, c) := states[i].waiters[w];
    InvRun(states, steps, i);
    SecuredRun(states, steps, i, j, p, c);
    SecuredRun(states, steps, j, j + 1, p, c);
    if c in states[i].hub.sent {
      SecuredRun(states, steps, i, j + 1, p, c);
    } else {
      assert Next(states[i], steps[i], states[i + 1]);
      assert p in states[i + 1].wakers[t].triggered;
      WakerKept(states, steps, t, key, i, j, j);
      assert Next(states[j], steps[j], states[j + 1]);
      SignalAllEffect(states[j].hub, states[j].wakers[t].triggered);
    }
  }

  // ------------------------------------------------------------------- no false alarms

  /** The scan of a thread that is between the two phases. */
  lemma {:induction false} ScanOf(states: seq<World>, steps: seq<Step>, t: nat, j: nat) returns (i: nat)
    requires Run(states, steps) && j < |states| && t in states[j].wakers
    ensures i < j && steps[i] == Scan(t, states[j].wakers[t].key) && forall m :: i < m < j ==> steps[m] != Finish(t)
    ensures forall p :: p in states[j].wakers[t].triggered ==> p <= states[j].wakers[t].key
    decreases j
  {
    assert j > 0 && Next(states[j - 1], steps[j - 1], states[j]);
    if t in states[j - 1].wakers {
      i := ScanOf(states, steps, t, j - 1);
    } else {
      i := j - 1;
    }
  }

  /** Step `j`, the end of a `wake` on a key below the prefix of waiter `w`, signals the channel of `w`, who has
      joined it before. */
  ghost predicate Signals(states: seq<World>, steps: seq<Step>, t: nat, key: Key, i: nat, j: nat, w: nat, who: Waiter)
    requires |states| == |steps| + 1
  {
    && Waking(steps, t, key, i, j) && who.prefix <= key
    && w in states[j].waiters && states[j].waiters[w] == who
    && who.chan !in states[j].hub.sent && who.chan in states[j + 1].hub.sent
  }

  lemma SignalStep(states: seq<World>, steps: seq<Step>, j: nat, w: nat) returns (t: nat, key: Key, i: nat)
    requires Run(states, steps) && j < |steps| && w in states[j].waiters
    requires states[j].waiters[w].chan !in states[j].hub.sent && states[j].waiters[w].chan in states[j + 1].hub.sent
    ensures Signals(states, steps, t, key, i, j, w, states[j].waiters[w])
  {
    InvRun(states, steps, j);
    assert Next(states[j], steps[j], states[j + 1]);
    assert steps[j].Finish?;
    t := steps[j].t;
    key := states[j].wakers[t].key;
    i := ScanOf(states, steps, t, j);
    SignalAllEffect(states[j].hub, states[j].wakers[t].triggered);
  }

  /** No false wakeup: a waiter is signalled only by the end of a `wake` on a key that its prefix matches, and
      that end comes after the waiter has joined. */
  lemma {:induction false} NoFalseWakeup(states: seq<World>, steps: seq<Step>, k: nat, w: nat)
      returns (t: nat, key: Key, i: nat, j: nat)
    requires Run(states, steps) && k < |states| && w in states[k].waiters
    requires states[k].waiters[w].chan in states[k].hub.sent
    ensures j < k && Signals(states, steps, t, key, i, j, w, states[k].waiters[w])
    decreases k
  {
    InvRun(states, steps, k);
    var c := states[k].waiters[w].chan;
    assert k > 0 && Next(states[k - 1], steps[k - 1], states[k]);
    assert w in states[k - 1].waiters && states[k - 1].waiters[w] == states[k].waiters[w] by {
      InvRun(states, steps, k - 1);
    }
    if c in states[k - 1].hub.sent {
      t, key, i, j := NoFalseWakeup(states, steps, k - 1, w);
    } else {
      j := k - 1;
      t, key, i := SignalStep(states, steps, j, w);
    }
  }

  // -------------------------------------------------------------- watching table rows

  /** A watcher on the prefix key of some components is triggered by the writing of a row exactly
      when the row begins with these components. */
  lemma RowTriggers(h: Hub, pre: seq<Val>, row: seq<Val>, kinds: seq<Kind>, t: seq<Key>)
    requires |pre| < |row| && HasKinds(row, kinds) && HasKinds(pre, kinds[..|pre|])
    requires KeyParts(pre) && KeyParts(row[..|pre|])
    requires PrefixKey(pre) in h.open && Triggers(h, Encode(row), t)
    ensures PrefixKey(pre) in t <==> pre == row[..|pre|]
  {
    PrefixSelects(pre, row, kinds);
  }
}
