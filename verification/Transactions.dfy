/** Idempotent message sending: transaction records, the per-room lock, and `sendToDevice`, which
    writes empty records without any lock. */
module Transactions {
  import opened Bytes
  import opened Codec
  import opened CodecTheorems

  // ------------------------------------------------------------- the record's key

  datatype Txn = Txn(user: seq<byte>, device: Val, txn: seq<byte>)

  /** A transaction of a device, or of no device; identifiers are strings. */
  predicate ValidTxn(x: Txn) {
    ValidUtf8(x.user) && ValidUtf8(x.txn) && (x.device.Nothing? || (x.device.Just? && HasKind(x.device.inner, KStr)))
  }

  function DeviceBytes(x: Txn): seq<byte> {
    if x.device.Just? then Payload(x.device.inner) else []
  }

  /** The key as `add_client_txnid` builds it by hand. */
  function StoredKey(x: Txn): seq<byte> {
    x.user + [SEP] + DeviceBytes(x) + [SEP] + x.txn
  }

  /** The tuple `get_client_txn` queries with. */
  function QueryTuple(x: Txn): seq<Val> {
    [Str(x.user), x.device, Str(x.txn)]
  }

  /** The hand-built key is the codec's key, and two transactions share it exactly when they agree in
      everything but the difference between no device and an empty one. */
  lemma KeysAgree(x: Txn, y: Txn)
    requires ValidTxn(x) && ValidTxn(y)
    ensures StoredKey(x) == Encode(QueryTuple(x))
    ensures StoredKey(x) == StoredKey(y) <==> x.user == y.user && x.txn == y.txn && DeviceBytes(x) == DeviceBytes(y)
  {
    KeyBytes(x);
    if StoredKey(x) == StoredKey(y) {
      hide StoredKey, Encode;
      var (a, b) := (Normal(x), Normal(y));
      NormalKey(x);
      NormalKey(y);
      EncodeInjective(a, b, [KStr, KOpt(KStr), KStr]);
      assert a[0] == b[0] && a[1] == b[1] && a[2] == b[2];
    }
  }

  lemma KeyBytes(x: Txn)
    requires ValidTxn(x)
    ensures StoredKey(x) == Encode(QueryTuple(x))
  {
    Triple(Str(x.user), x.device, Str(x.txn));
  }

  lemma Triple(a: Val, b: Val, c: Val)
    ensures Encode([a, b, c]) == Payload(a) + [SEP] + Payload(b) + [SEP] + Payload(c)
  {
    hide Payload;
    assert [a, b, c][1..] == [b, c] && [b, c][1..] == [c];
    assert Encode([b, c]) == Payload(b) + [SEP] + Payload(c);
  }

  /** The query tuple with an empty device taken for none. */
  function Normal(x: Txn): seq<Val> {
    [Str(x.user), if DeviceBytes(x) == [] then Nothing else x.device, Str(x.txn)]
  }

  lemma NormalKey(x: Txn)
    requires ValidTxn(x)
    ensures Encode(Normal(x)) == StoredKey(x)
    ensures HasKinds(Normal(x), [KStr, KOpt(KStr), KStr]) && Decodable(Normal(x))
  {
    var n := Normal(x);
    Triple(n[0], n[1], n[2]);
    var d := DeviceBytes(x);
    if d != [] {
      SepNotInUtf8(d);
      assert d[0] in d && !HoldsRaw(x.device.inner);
    }
    assert !HoldsRaw(n[1]) && Visible(n[1]);
    hide Encode, Payload;
    assert n[1..][1..] == [Str(x.txn)] && Readable(n[1..][1..]) && Readable(n[1..]);
  }

  // ---------------------------------------------------------------- the protocol

  type Room = nat
  type Key = nat
  type EventId = nat

  datatype Record = Empty | Sent(id: EventId)

  datatype Phase = Waiting | Locked | Missed | Appended(id: EventId) | Replied(id: EventId) | Failed

  datatype Request = Request(key: Key, room: Room, phase: Phase)

  /** An event of the timeline and the request that appended it. */
  datatype Event = Event(sender: nat, key: Key, room: Room)

  /** Event ids are positions in the timeline. */
  datatype State = State(
    records: map<Key, Record>,
    locks: map<Room, nat>,
    timeline: seq<Event>,
    requests: map<nat, Request>,
    toDevice: map<nat, Key>)

  const Init: State := State(map[], map[], [], map[], map[])

  datatype Step =
    | Arrive(t: nat, key: Key, room: Room)
    | Refuse(t: nat)
    | Acquire(t: nat)
    | Lookup(t: nat)
    | Append(t: nat, ok: bool)
    | Store(t: nat)
    | DeviceCheck(t: nat, key: Key)
    | DeviceStore(t: nat)

  function Move(s: State, t: nat, p: Phase): State
    requires t in s.requests
  {
    s.(requests := s.requests[t := s.requests[t].(phase := p)])
  }

  /** Ends the request and releases its room. */
  function Leave(s: State, t: nat, p: Phase): State
    requires t in s.requests
  {
    Move(s, t, p).(locks := s.locks - {s.requests[t].room})
  }

  predicate At(s: State, t: nat, p: Phase) {
    t in s.requests && s.requests[t].phase == p
  }

  /** One atomic action; an action that is not enabled changes nothing. */
  function Do(s: State, a: Step): State {
    match a
    case Arrive(t, key, room) =>
      if t !in s.requests then s.(requests := s.requests[t := Request(key, room, Waiting)]) else s
    case Refuse(t) =>
      if At(s, t, Waiting) then Move(s, t, Failed)
      else if At(s, t, Locked) then Leave(s, t, Failed)
      else s
    case Acquire(t) =>
      if At(s, t, Waiting) && s.requests[t].room !in s.locks then
        Move(s, t, Locked).(locks := s.locks[s.requests[t].room := t])
      else s
    case Lookup(t) =>
      if !At(s, t, Locked) then s
      else if s.requests[t].key !in s.records then Move(s, t, Missed)
      else if s.records[s.requests[t].key].Empty? then Leave(s, t, Failed)
      else Leave(s, t, Replied(s.records[s.requests[t].key].id))
    case Append(t, ok) =>
      if !At(s, t, Missed) then s
      else if !ok then Leave(s, t, Failed)
      else Move(s, t, Appended(|s.timeline|)).(
             timeline := s.timeline + [Event(t, s.requests[t].key, s.requests[t].room)])
    case Store(t) =>
      if t in s.requests && s.requests[t].phase.Appended? then
        Leave(s, t, Replied(s.requests[t].phase.id)).(
          records := s.records[s.requests[t].key := Sent(s.requests[t].phase.id)])
      else s
    case DeviceCheck(t, key) =>
      if key !in s.records && t !in s.toDevice then s.(toDevice := s.toDevice[t := key]) else s
    case DeviceStore(t) =>
      if t in s.toDevice then
        s.(records := s.records[s.toDevice[t] := Empty], toDevice := s.toDevice - {t})
      else s
  }

  lemma LockUnlock(locks: map<Room, nat>, room: Room, t: nat)
    requires room !in locks
    ensures locks[room := t] - {room} == locks
  {
  }

  lemma Overwrite(requests: map<nat, Request>, t: nat, a: Request, b: Request)
    ensures requests[t := a][t := b] == requests[t := b]
  {
  }

  /** The five actions of one undisturbed request. */
  function Whole(s: State, t: nat, key: Key, room: Room, ok: bool): State {
    Do(Do(Do(Do(Do(s, Arrive(t, key, room)), Acquire(t)), Lookup(t)), Append(t, ok)), Store(t))
  }

  /** The handler with its tables, as it runs when nobody holds the room. */
  class Server {
    var records: map<Key, Record>
    var locks: map<Room, nat>
    var timeline: seq<Event>
    var requests: map<nat, Request>
    var toDevice: map<nat, Key>

    ghost function Abs(): State
      reads this
    {
      State(records, locks, timeline, requests, toDevice)
    }

    constructor ()
      ensures Abs() == Init
    {
      records, locks, timeline, requests, toDevice := map[], map[], [], map[], map[];
    }

    /** `send_message_event_route` from the room lock to the response. */
    method SendMessage(t: nat, key: Key, room: Room, appendOk: bool) returns (reply: Phase)
      requires t !in requests && room !in locks
      modifies this
      ensures Abs() == Served(old(Abs()), t, key, room, appendOk)
      ensures t in requests && reply == requests[t].phase
      ensures forall id :: key in old(records) && old(records)[key] == Sent(id) ==>
                reply == Replied(id) && timeline == old(timeline) && records == old(records)
      ensures key in old(records) && old(records)[key] == Empty ==>
                reply == Failed && timeline == old(timeline) && records == old(records)
      ensures key !in old(records) && !appendOk ==> reply == Failed && timeline == old(timeline) && records == old(records)
      ensures key !in old(records) && appendOk ==>
                && timeline == old(timeline) + [Event(t, key, room)]
                && reply == Replied(|old(timeline)|) && records == old(records)[key := Sent(|old(timeline)|)]
    {
      LockUnlock(locks, room, t);
      locks := locks[room := t];
      if key in records {
        reply := if records[key].Empty? then Failed else Replied(records[key].id);
      } else if appendOk {
        var id := |timeline|;
        timeline := timeline + [Event(t, key, room)];
        records := records[key := Sent(id)];
        reply := Replied(id);
      } else {
        reply := Failed;
      }
      requests := requests[t := Request(key, room, reply)];
      locks := locks - {room};
    }
  }

  /** An undisturbed run of the five actions is what the handler does in one go. */
  lemma WholeRun(s: State, t: nat, key: Key, room: Room, ok: bool)
    requires t !in s.requests && room !in s.locks
    ensures Whole(s, t, key, room, ok) == Served(s, t, key, room, ok)
  {
    var a := s.(requests := s.requests[t := Request(key, room, Locked)], locks := s.locks[room := t]);
    assert Do(Do(s, Arrive(t, key, room)), Acquire(t)) == a;
    if key in s.records {
      WholeRepeated(s, a, t, key, room, ok);
    } else {
      WholeFirst(s, a, t, key, room, ok);
    }
  }

  /** The outcome of an undisturbed request. */
  function Served(s: State, t: nat, key: Key, room: Room, ok: bool): State {
    if key in s.records then
      s.(requests := s.requests[t := Request(key, room,
        if s.records[key].Empty? then Failed else Replied(s.records[key].id))])
    else if ok then
      s.(requests := s.requests[t := Request(key, room, Replied(|s.timeline|))],
         timeline := s.timeline + [Event(t, key, room)],
         records := s.records[key := Sent(|s.timeline|)])
    else s.(requests := s.requests[t := Request(key, room, Failed)])
  }

  lemma WholeRepeated(s: State, a: State, t: nat, key: Key, room: Room, ok: bool)
    requires t !in s.requests && room !in s.locks && key in s.records
    requires a == s.(requests := s.requests[t := Request(key, room, Locked)], locks := s.locks[room := t])
    ensures Do(Do(Do(a, Lookup(t)), Append(t, ok)), Store(t)) == Served(s, t, key, room, ok)
  {
    var b := Do(a, Lookup(t));
    assert a.locks - {room} == s.locks;
    assert b == Served(s, t, key, room, ok);
    assert Do(b, Append(t, ok)) == b;
  }

  lemma WholeFirst(s: State, a: State, t: nat, key: Key, room: Room, ok: bool)
    requires t !in s.requests && room !in s.locks && key !in s.records
    requires a == s.(requests := s.requests[t := Request(key, room, Locked)], locks := s.locks[room := t])
    ensures Do(Do(Do(a, Lookup(t)), Append(t, ok)), Store(t)) == Served(s, t, key, room, ok)
  {
    var b := a.(requests := s.requests[t := Request(key, room, Missed)]);
    assert Do(a, Lookup(t)) == b;
    WholeAppend(s, b, t, key, room, ok);
  }

  lemma WholeAppend(s: State, b: State, t: nat, key: Key, room: Room, ok: bool)
    requires t !in s.requests && room !in s.locks && key !in s.records
    requires b == s.(requests := s.requests[t := Request(key, room, Missed)], locks := s.locks[room := t])
    ensures Do(Do(b, Append(t, ok)), Store(t)) == Served(s, t, key, room, ok)
  {
    LockUnlock(s.locks, room, t);
    var p := if ok then Appended(|s.timeline|) else Failed;
    Overwrite(s.requests, t, Request(key, room, Missed), Request(key, room, p));
    Overwrite(s.requests, t, Request(key, room, p), Request(key, room, Replied(|s.timeline|)));
  }

  function Exec(s: State, steps: seq<Step>): State
    decreases |steps|
  {
    if steps == [] then s else Exec(Do(s, steps[0]), steps[1..])
  }

  // ------------------------------------------------------------------------ invariant

  predicate InRoom(p: Phase) {
    p.Locked? || p.Missed? || p.Appended?
  }

  ghost predicate Locking(s: State) {
    && (forall t :: t in s.requests && InRoom(s.requests[t].phase) ==>
          s.requests[t].room in s.locks && s.locks[s.requests[t].room] == t)
    && (forall r :: r in s.locks ==>
          s.locks[r] in s.requests && s.requests[s.locks[r]].room == r && InRoom(s.requests[s.locks[r]].phase))
  }

  /** An id that stands for a real event of transaction `k`. */
  predicate Genuine(s: State, k: Key, id: EventId) {
    id < |s.timeline| && s.timeline[id].key == k
  }

  ghost predicate Truthful(s: State) {
    && (forall k :: k in s.records && s.records[k].Sent? ==> Genuine(s, k, s.records[k].id))
    && (forall t :: t in s.requests && (s.requests[t].phase.Replied? || s.requests[t].phase.Appended?) ==>
          Genuine(s, s.requests[t].key, s.requests[t].phase.id))
    && (forall i :: 0 <= i < |s.timeline| ==>
          s.timeline[i].sender in s.requests
          && s.requests[s.timeline[i].sender].key == s.timeline[i].key
          && s.requests[s.timeline[i].sender].room == s.timeline[i].room)
  }

  ghost predicate Once(s: State) {
    && (forall i, j :: 0 <= i < j < |s.timeline| ==>
          !(s.timeline[i].key == s.timeline[j].key && s.timeline[i].room == s.timeline[j].room))
    && (forall i :: 0 <= i < |s.timeline| ==>
          s.timeline[i].key in s.records || At(s, s.timeline[i].sender, Appended(i)))
    && (forall t, i :: t in s.requests && s.requests[t].phase.Missed? && 0 <= i < |s.timeline| ==>
          !(s.timeline[i].key == s.requests[t].key && s.timeline[i].room == s.requests[t].room))
  }

  ghost predicate Inv(s: State) {
    Locking(s) && Truthful(s) && Once(s)
  }

  lemma LeaveInv(s: State, t: nat, p: Phase)
    requires Inv(s) && (At(s, t, Locked) || At(s, t, Missed))
    requires p.Failed? || (p.Replied? && Genuine(s, s.requests[t].key, p.id))
    ensures Inv(Leave(s, t, p))
  {
    LeaveKeeps(s, t, p);
    hide Locking, Truthful;
  }

  lemma LeaveKeeps(s: State, t: nat, p: Phase)
    requires Inv(s) && (At(s, t, Locked) || At(s, t, Missed))
    requires p.Failed? || (p.Replied? && Genuine(s, s.requests[t].key, p.id))
    ensures Locking(Leave(s, t, p)) && Truthful(Leave(s, t, p))
  {
    hide Once;
  }

  lemma ArriveStep(s: State, t: nat, key: Key, room: Room)
    requires Inv(s)
    ensures Inv(Do(s, Arrive(t, key, room)))
  {
  }

  lemma AcquireStep(s: State, t: nat)
    requires Inv(s)
    ensures Inv(Do(s, Acquire(t)))
  {
    AcquireKeeps(s, t);
    hide Locking, Truthful;
  }

  lemma AcquireKeeps(s: State, t: nat)
    requires Inv(s)
    ensures Locking(Do(s, Acquire(t))) && Truthful(Do(s, Acquire(t)))
  {
    hide Once;
  }

  lemma RefuseStep(s: State, t: nat)
    requires Inv(s)
    ensures Inv(Do(s, Refuse(t)))
  {
    if At(s, t, Locked) {
      LeaveInv(s, t, Failed);
    }
  }

  /** A request that finds no record while it holds its room is the first of its room. */
  lemma LookupStep(s: State, t: nat)
    requires Inv(s)
    ensures Inv(Do(s, Lookup(t)))
  {
    if At(s, t, Locked) && s.requests[t].key in s.records {
      hide Inv;
      var r := s.records[s.requests[t].key];
      assert r.Sent? ==> Genuine(s, s.requests[t].key, r.id) by { RecordGenuine(s, s.requests[t].key); }
      LeaveInv(s, t, if r.Empty? then Failed else Replied(r.id));
    }
  }

  lemma RecordGenuine(s: State, k: Key)
    requires Inv(s) && k in s.records
    ensures s.records[k].Sent? ==> Genuine(s, k, s.records[k].id)
  {
  }

  lemma AppendStep(s: State, t: nat, ok: bool)
    requires Inv(s)
    ensures Inv(Do(s, Append(t, ok)))
  {
    if At(s, t, Missed) && !ok {
      hide Inv;
      LeaveInv(s, t, Failed);
    }
  }

  lemma StoreStep(s: State, t: nat)
    requires Inv(s)
    ensures Inv(Do(s, Store(t)))
  {
    StoreKeeps(s, t);
    hide Locking, Truthful;
  }

  lemma StoreKeeps(s: State, t: nat)
    requires Inv(s)
    ensures Locking(Do(s, Store(t))) && Truthful(Do(s, Store(t)))
  {
    hide Once;
  }

  lemma DeviceStep(s: State, a: Step)
    requires Inv(s) && (a.DeviceCheck? || a.DeviceStore?)
    ensures Inv(Do(s, a))
  {
  }

  lemma StepInv(s: State, a: Step)
    requires Inv(s)
    ensures Inv(Do(s, a))
  {
    hide Inv, Do;
    match a
    case Arrive(t, key, room) => ArriveStep(s, t, key, room);
    case Refuse(t) => RefuseStep(s, t);
    case Acquire(t) => AcquireStep(s, t);
    case Lookup(t) => LookupStep(s, t);
    case Append(t, ok) => AppendStep(s, t, ok);
    case Store(t) => StoreStep(s, t);
    case _ => DeviceStep(s, a);
  }

  lemma {:induction false} ExecInv(s: State, steps: seq<Step>)
    requires Inv(s)
    ensures Inv(Exec(s, steps))
    decreases |steps|
  {
    hide Inv, Do;
    if steps != [] {
      StepInv(s, steps[0]);
      ExecInv(Do(s, steps[0]), steps[1..]);
    }
  }

  // ------------------------------------------------------------------------- theorems

  /** Over every interleaving, a room receives at most one event of a transaction. */
  lemma AtMostOneEvent(steps: seq<Step>, i: nat, j: nat)
    requires var s := Exec(Init, steps);
             i < |s.timeline| && j < |s.timeline|
             && s.timeline[i].key == s.timeline[j].key && s.timeline[i].room == s.timeline[j].room
    ensures i == j
  {
    ExecInv(Init, steps);
  }

  /** Every successful response carries the id of an event of that transaction; in particular an
      empty record is never returned. */
  lemma RepliesAreGenuine(steps: seq<Step>, t: nat)
    requires var s := Exec(Init, steps); t in s.requests && s.requests[t].phase.Replied?
    ensures var s := Exec(Init, steps); Genuine(s, s.requests[t].key, s.requests[t].phase.id)
  {
    ExecInv(Init, steps);
  }

  /** If all requests of a transaction name one room, all its successful responses are equal. */
  lemma RepliesAgree(steps: seq<Step>, key: Key, room: Room, t: nat, u: nat)
    requires var s := Exec(Init, steps);
             && (forall v :: v in s.requests && s.requests[v].key == key ==> s.requests[v].room == room)
             && t in s.requests && s.requests[t].key == key && s.requests[t].phase.Replied?
             && u in s.requests && s.requests[u].key == key && s.requests[u].phase.Replied?
    ensures var s := Exec(Init, steps); s.requests[t].phase == s.requests[u].phase
  {
    ExecInv(Init, steps);
    var s := Exec(Init, steps);
    AtMostOneEvent(steps, s.requests[t].phase.id, s.requests[u].phase.id);
  }

  lemma Cons(s: State, a: Step, rest: seq<Step>)
    ensures Exec(s, [a] + rest) == Exec(Do(s, a), rest)
  {
    assert ([a] + rest)[1..] == rest;
  }

  lemma {:induction false} ExecConcat(s: State, a: seq<Step>, b: seq<Step>)
    ensures Exec(s, a + b) == Exec(Exec(s, a), b)
    decreases |a|
  {
    hide Do;
    if a == [] {
      assert a + b == b;
    } else {
      assert (a + b)[1..] == a[1..] + b;
      ExecConcat(Do(s, a[0]), a[1..], b);
    }
  }

  /** Two requests of one transaction that both found no record, each holding its room. */
  function Racing(key: Key, q: Room, r: Room): State {
    State(map[], map[q := 1, r := 2], [], map[1 := Request(key, q, Missed), 2 := Request(key, r, Missed)], map[])
  }

  function ToRace(key: Key, q: Room, r: Room): seq<Step> {
    [Arrive(1, key, q), Acquire(1), Lookup(1), Arrive(2, key, r), Acquire(2), Lookup(2)]
  }

  lemma RaceReached(key: Key, q: Room, r: Room)
    requires q != r
    ensures Exec(Init, ToRace(key, q, r)) == Racing(key, q, r)
  {
    hide Exec;
    var s3 := State(map[], map[q := 1], [], map[1 := Request(key, q, Missed)], map[]);
    assert Do(Do(Do(Init, Arrive(1, key, q)), Acquire(1)), Lookup(1)) == s3;
    var s5 := Do(Do(s3, Arrive(2, key, r)), Acquire(2));
    assert s5 == State(map[], map[q := 1, r := 2], [], map[1 := Request(key, q, Missed), 2 := Request(key, r, Locked)], map[]);
    Six(Init, Arrive(1, key, q), Acquire(1), Lookup(1), Arrive(2, key, r), Acquire(2), Lookup(2));
  }

  lemma Six(s: State, a: Step, b: Step, c: Step, d: Step, e: Step, f: Step)
    ensures Exec(s, [a, b, c, d, e, f]) == Do(Do(Do(Do(Do(Do(s, a), b), c), d), e), f)
  {
    hide Do;
    Cons(s, a, [b, c, d, e, f]);
    Cons(Do(s, a), b, [c, d, e, f]);
    var t := Do(Do(s, a), b);
    Cons(t, c, [d, e, f]);
    Cons(Do(t, c), d, [e, f]);
    Cons(Do(Do(t, c), d), e, [f]);
    Cons(Do(Do(Do(t, c), d), e), f, []);
    assert [a] + [b, c, d, e, f] == [a, b, c, d, e, f] && [b] + [c, d, e, f] == [b, c, d, e, f];
    assert [c] + [d, e, f] == [c, d, e, f] && [d] + [e, f] == [d, e, f] && [e] + [f] == [e, f] && [f] + [] == [f];
  }

  lemma RaceEnds(key: Key, q: Room, r: Room)
    requires q != r
    ensures var s := Do(Do(Do(Do(Racing(key, q, r), Append(1, true)), Append(2, true)), Store(1)), Store(2));
            && s.timeline == [Event(1, key, q), Event(2, key, r)]
            && At(s, 1, Replied(0)) && At(s, 2, Replied(1))
  {
    var s1 := Do(Racing(key, q, r), Append(1, true));
    assert s1.timeline == [Event(1, key, q)];
    var s2 := Do(s1, Append(2, true));
    assert s2.timeline == [Event(1, key, q), Event(2, key, r)];
    var s3 := Do(s2, Store(1));
    assert At(s3, 2, Appended(1));
  }

  /** Across rooms the per-room lock does not help: for every transaction and any two rooms some run
      sends two events and answers with two ids. */
  lemma TwoRooms(key: Key, q: Room, r: Room) returns (steps: seq<Step>)
    requires q != r
    ensures var s := Exec(Init, steps);
            && s.timeline == [Event(1, key, q), Event(2, key, r)]
            && At(s, 1, Replied(0)) && At(s, 2, Replied(1))
    ensures Confined(steps, key, {q, r})
  {
    hide Do, At;
    var tail := [Append(1, true), Append(2, true), Store(1), Store(2), Store(2), Store(2)];
    RaceReached(key, q, r);
    Six(Racing(key, q, r), tail[0], tail[1], tail[2], tail[3], tail[4], tail[5]);
    RaceEnds(key, q, r);
    RaceOver(Do(Do(Do(Racing(key, q, r), Append(1, true)), Append(2, true)), Store(1)));
    ExecConcat(Init, ToRace(key, q, r), tail);
    steps := ToRace(key, q, r) + tail;
  }

  lemma RaceOver(s: State)
    ensures Do(Do(Do(s, Store(2)), Store(2)), Store(2)) == Do(s, Store(2))
  {
  }

  /** All requests of transaction `key` name a room of `rooms`. */
  predicate Confined(steps: seq<Step>, key: Key, rooms: set<Room>) {
    forall i :: 0 <= i < |steps| && steps[i].Arrive? && steps[i].key == key ==> steps[i].room in rooms
  }

  ghost predicate Homed(s: State, key: Key, rooms: set<Room>) {
    forall t :: t in s.requests && s.requests[t].key == key ==> s.requests[t].room in rooms
  }

  lemma {:induction false} ConfinedRun(s: State, steps: seq<Step>, key: Key, rooms: set<Room>)
    requires Homed(s, key, rooms) && Confined(steps, key, rooms)
    ensures Homed(Exec(s, steps), key, rooms)
    decreases |steps|
  {
    if steps != [] {
      assert Homed(Do(s, steps[0]), key, rooms);
      hide Do, Homed;
      assert forall i :: 0 <= i < |steps| - 1 ==> steps[1..][i] == steps[i + 1];
      ConfinedRun(Do(s, steps[0]), steps[1..], key, rooms);
    }
  }

  /** The timeline holds at most one event of transaction `key`. */
  predicate Unique(s: State, key: Key) {
    forall i, j :: 0 <= i < j < |s.timeline| ==> !(s.timeline[i].key == key && s.timeline[j].key == key)
  }

  lemma OneRoomUnique(steps: seq<Step>, key: Key, rooms: set<Room>)
    requires Confined(steps, key, rooms) && forall q, r :: q in rooms && r in rooms ==> q == r
    ensures Unique(Exec(Init, steps), key)
  {
    ConfinedRun(Init, steps, key, rooms);
    ExecInv(Init, steps);
  }

  /** A transaction id is unique in every run if and only if its requests are confined to one room. */
  lemma UniqueExactly(key: Key, rooms: set<Room>)
    ensures (forall steps :: Confined(steps, key, rooms) ==> Unique(Exec(Init, steps), key))
       <==> (forall q, r :: q in rooms && r in rooms ==> q == r)
  {
    hide Exec;
    if forall q, r :: q in rooms && r in rooms ==> q == r {
      forall steps | Confined(steps, key, rooms)
        ensures Unique(Exec(Init, steps), key)
      {
        OneRoomUnique(steps, key, rooms);
      }
    } else {
      var q, r :| q in rooms && r in rooms && q != r;
      var steps := TwoRooms(key, q, r);
      assert Confined(steps, key, rooms);
      var s := Exec(Init, steps);
      assert s.timeline[0].key == key && s.timeline[1].key == key;
    }
  }

  // ------------------------------------------------------------------ repeated requests

  /** Transaction `k` has its answer: the record holds event `id`, nobody is about to overwrite it, and no request
      of `k` is past its look-up with another result. */
  ghost predicate Settled(s: State, k: Key, id: EventId) {
    && k in s.records && s.records[k] == Sent(id)
    && (forall d :: d in s.toDevice ==> s.toDevice[d] != k)
    && (forall t :: t in s.requests && s.requests[t].key == k ==>
          !s.requests[t].phase.Missed? && (s.requests[t].phase.Appended? ==> s.requests[t].phase.id == id))
  }

  ghost predicate Answers(s: State, k: Key, id: EventId, t: nat) {
    t in s.requests && s.requests[t].key == k && s.requests[t].phase.Replied? ==> s.requests[t].phase.id == id
  }

  /** The events of transaction `k` in the timeline. */
  function EventsOf(timeline: seq<Event>, k: Key): (r: set<nat>)
    ensures forall i :: i in r <==> 0 <= i < |timeline| && timeline[i].key == k
  {
    set i | 0 <= i < |timeline| && timeline[i].key == k
  }

  lemma SettledStep(s: State, a: Step, k: Key, id: EventId)
    requires Settled(s, k, id)
    ensures Settled(Do(s, a), k, id) && EventsOf(Do(s, a).timeline, k) == EventsOf(s.timeline, k)
    ensures forall t :: Answers(s, k, id, t) ==> Answers(Do(s, a), k, id, t)
  {
    SettledKept(s, a, k, id);
    EventsKept(s, a, k, id);
    hide Settled, EventsOf, Do, Answers;
    forall t | Answers(s, k, id, t)
      ensures Answers(Do(s, a), k, id, t)
    {
      AnswerKept(s, a, k, id, t);
    }
  }

  lemma SettledKept(s: State, a: Step, k: Key, id: EventId)
    requires Settled(s, k, id)
    ensures Settled(Do(s, a), k, id)
  {
  }

  lemma EventsKept(s: State, a: Step, k: Key, id: EventId)
    requires Settled(s, k, id)
    ensures EventsOf(Do(s, a).timeline, k) == EventsOf(s.timeline, k)
  {
  }

  lemma AnswerKept(s: State, a: Step, k: Key, id: EventId, t: nat)
    requires Settled(s, k, id) && Answers(s, k, id, t)
    ensures Answers(Do(s, a), k, id, t)
  {
  }

  /** From then on nothing changes, whatever happens: no further event is sent, and every answer is `id`. */
  lemma {:induction false} SettledRun(s: State, steps: seq<Step>, k: Key, id: EventId)
    requires Settled(s, k, id)
    ensures var e := Exec(s, steps);
            && Settled(e, k, id) && EventsOf(e.timeline, k) == EventsOf(s.timeline, k)
            && forall t :: Answers(s, k, id, t) ==> Answers(e, k, id, t)
    decreases |steps|
  {
    hide Do, Settled, Answers, EventsOf;
    if steps != [] {
      SettledStep(s, steps[0], k, id);
      SettledRun(Do(s, steps[0]), steps[1..], k, id);
    }
  }

  /** No `sendToDevice` request uses transaction `k`. */
  predicate NoDevice(steps: seq<Step>, k: Key) {
    forall i :: 0 <= i < |steps| ==> !(steps[i].DeviceCheck? && steps[i].key == k)
  }

  /** Whoever was answered, there is a record, and it is not empty. */
  ghost predicate Recorded(s: State, k: Key) {
    && (forall d :: d in s.toDevice ==> s.toDevice[d] != k)
    && (k in s.records ==> s.records[k].Sent?)
    && (forall t :: t in s.requests && s.requests[t].key == k && s.requests[t].phase.Replied? ==> k in s.records)
  }

  lemma RecordedStep(s: State, a: Step, k: Key)
    requires Recorded(s, k) && !(a.DeviceCheck? && a.key == k)
    ensures Recorded(Do(s, a), k)
  {
  }

  lemma {:induction false} RecordedRun(s: State, steps: seq<Step>, k: Key)
    requires Recorded(s, k) && NoDevice(steps, k)
    ensures Recorded(Exec(s, steps), k)
    decreases |steps|
  {
    hide Do, Recorded;
    if steps != [] {
      assert forall i :: 0 <= i < |steps| - 1 ==> steps[1..][i] == steps[i + 1];
      RecordedStep(s, steps[0], k);
      RecordedRun(Do(s, steps[0]), steps[1..], k);
    }
  }

  /** With one room and no use for another endpoint, an answered transaction is settled. */
  lemma AnsweredIsSettled(steps: seq<Step>, k: Key, room: Room, t: nat)
    requires Confined(steps, k, {room}) && NoDevice(steps, k)
    requires var s := Exec(Init, steps); t in s.requests && s.requests[t].key == k && s.requests[t].phase.Replied?
    ensures var s := Exec(Init, steps); Settled(s, k, s.requests[t].phase.id)
  {
    var s := Exec(Init, steps);
    ExecInv(Init, steps);
    ConfinedRun(Init, steps, k, {room});
    RecordedRun(Init, steps, k);
    hide Exec;
    var id := s.requests[t].phase.id;
    OneEvent(s, k, room, id, s.records[k].id);
    forall u | u in s.requests && s.requests[u].key == k
      ensures !s.requests[u].phase.Missed? && (s.requests[u].phase.Appended? ==> s.requests[u].phase.id == id)
    {
      NotMissed(s, k, room, id, u);
      if s.requests[u].phase.Appended? {
        OneEvent(s, k, room, id, s.requests[u].phase.id);
      }
    }
  }

  lemma OneEvent(s: State, k: Key, room: Room, i: EventId, j: EventId)
    requires Inv(s) && Homed(s, k, {room}) && Genuine(s, k, i) && Genuine(s, k, j)
    ensures i == j
  {
    assert s.timeline[i].room == room && s.timeline[j].room == room;
  }

  lemma NotMissed(s: State, k: Key, room: Room, id: EventId, u: nat)
    requires Inv(s) && Homed(s, k, {room}) && Genuine(s, k, id) && u in s.requests && s.requests[u].key == k
    ensures !s.requests[u].phase.Missed?
  {
    assert s.timeline[id].room == room;
  }

  /** A repeated request is answered from the record: no event, no new record. */
  lemma RepeatAnswered(s: State, u: nat, k: Key, r: Room, ok: bool)
    requires u !in s.requests && r !in s.locks && k in s.records
    ensures var e := Whole(s, u, k, r, ok);
            && e.timeline == s.timeline && e.records == s.records && e.locks == s.locks
            && At(e, u, if s.records[k].Empty? then Failed else Replied(s.records[k].id))
  {
    WholeRun(s, u, k, r, ok);
  }

  /** Idempotent sending: once a request of a transaction was answered, then after whatever else happens every
      undisturbed request of the transaction, into whatever room, is answered with the same id and sends nothing. */
  lemma IdempotentSend(before: seq<Step>, after: seq<Step>, k: Key, room: Room, t: nat, u: nat, r: Room, ok: bool)
    requires Confined(before, k, {room}) && NoDevice(before, k)
    requires var s := Exec(Init, before); t in s.requests && s.requests[t].key == k && s.requests[t].phase.Replied?
    requires var e := Exec(Exec(Init, before), after); u !in e.requests && r !in e.locks
    ensures var (s, e) := (Exec(Init, before), Exec(Exec(Init, before), after));
            && At(Whole(e, u, k, r, ok), u, s.requests[t].phase)
            && Whole(e, u, k, r, ok).timeline == e.timeline && EventsOf(e.timeline, k) == EventsOf(s.timeline, k)
  {
    hide Do, Exec, Whole;
    var s := Exec(Init, before);
    AnsweredIsSettled(before, k, room, t);
    SettledRun(s, after, k, s.requests[t].phase.id);
    RepeatAnswered(Exec(s, after), u, k, r, ok);
  }

  /** An undisturbed `sendToDevice` request takes the transaction id: a later message with it is refused, and a
      later `sendToDevice` request changes nothing. */
  lemma DeviceTakesId(s: State, d: nat, k: Key, e: nat, u: nat, r: Room, ok: bool)
    requires k !in s.records && d !in s.toDevice && u !in s.requests && r !in s.locks
    ensures var f := Do(Do(s, DeviceCheck(d, k)), DeviceStore(d));
            && f == s.(records := s.records[k := Empty]) && Do(f, DeviceCheck(e, k)) == f
            && At(Whole(f, u, k, r, ok), u, Failed) && Whole(f, u, k, r, ok).timeline == s.timeline
  {
    var f := Do(Do(s, DeviceCheck(d, k)), DeviceStore(d));
    assert s.toDevice[d := k] - {d} == s.toDevice;
    RepeatAnswered(f, u, k, r, ok);
  }

  /** Without that condition it fails: a `sendToDevice` request that looked up the id before the message was sent
      empties the record afterwards, and the repeated message is refused. */
  lemma DeviceRace(k: Key, room: Room, ok: bool)
    ensures var a := Whole(Do(Init, DeviceCheck(0, k)), 1, k, room, true);
            && At(a, 1, Replied(0)) && At(Whole(Do(a, DeviceStore(0)), 2, k, room, ok), 2, Failed)
  {
    var s := Do(Init, DeviceCheck(0, k));
    hide Whole;
    WholeRun(s, 1, k, room, true);
    var b := Do(Whole(s, 1, k, room, true), DeviceStore(0));
    assert b.records[k] == Empty;
    RepeatAnswered(b, 2, k, room, ok);
  }

  /** A request that is refused before its look-up fails, leaves no trace and does not keep its room. */
  lemma RefusalReleases(s: State, t: nat)
    requires Inv(s) && (At(s, t, Waiting) || At(s, t, Locked))
    ensures var f := Do(s, Refuse(t));
            && At(f, t, Failed) && f.records == s.records && f.timeline == s.timeline
            && f.locks == (if At(s, t, Locked) then s.locks - {s.requests[t].room} else s.locks)
            && forall r :: r in f.locks ==> f.locks[r] != t
  {
  }

  /** A failed append leaves no trace but the failed request: the retry appends and is answered. */
  lemma RetryAfterFailure(s: State, t: nat, u: nat)
    requires Inv(s) && At(s, t, Missed) && u !in s.requests && s.requests[t].key !in s.records
    ensures var (k, r) := (s.requests[t].key, s.requests[t].room);
            var f := Do(s, Append(t, false));
            && f.records == s.records && f.timeline == s.timeline && f.locks == s.locks - {r}
            && At(Do(Do(Do(Do(Do(f, Arrive(u, k, r)), Acquire(u)), Lookup(u)), Append(u, true)), Store(u)),
                  u, Replied(|s.timeline|))
  {
    var (k, r) := (s.requests[t].key, s.requests[t].room);
    var f := Do(s, Append(t, false));
    var g := Do(Do(f, Arrive(u, k, r)), Acquire(u));
    assert At(g, u, Locked);
    var h := Do(Do(g, Lookup(u)), Append(u, true));
    assert At(h, u, Appended(|s.timeline|));
  }
}
