/** The walk of `get_missing_events`: a breadth-first search over the event graph, cut by a
    limit and by a set of events the requester already has. */
module MissingEvents {
  import opened Sequences

  type EventId = string
  type RoomId = string

  datatype Event = Event(room: RoomId, prev: seq<EventId>)

  datatype Request = Request(room: RoomId, latest: seq<EventId>, earliest: seq<EventId>, limit: nat)

  /** An event of the answer; events the requester may not see are sent redacted. */
  datatype Sent = Sent(id: EventId, redacted: bool)

  datatype Answer = Events(events: seq<Sent>) | NotInRoom(id: EventId)

  const LIMIT_MAX: nat := 50

  function Limit(req: Request): nat {
    if req.limit < LIMIT_MAX then req.limit else LIMIT_MAX
  }

  // ------------------------------------------------------- the graph, independently

  /** Events the walk may pass: known ones that the requester does not have. */
  predicate Open(store: map<EventId, Event>, req: Request, x: EventId) {
    x in store && x !in req.earliest
  }

  /** `x` is a latest event, or a predecessor of one that a walk of `n - 1` steps reaches. */
  ghost predicate Offered(store: map<EventId, Event>, req: Request, x: EventId, n: nat)
    decreases n, 0
  {
    if n == 0 then x in req.latest
    else exists y :: y in store && Walk(store, req, y, n - 1) && x in store[y].prev
  }

  /** A walk of `n` steps through open events leads from a latest event to `x`. */
  ghost predicate Walk(store: map<EventId, Event>, req: Request, x: EventId, n: nat)
    decreases n, 1
  {
    Open(store, req, x) && Offered(store, req, x, n)
  }

  ghost predicate Reachable(store: map<EventId, Event>, req: Request, x: EventId) {
    exists n: nat :: Walk(store, req, x, n)
  }

  /** `x` is at most `n` steps away. */
  ghost predicate Within(store: map<EventId, Event>, req: Request, x: EventId, n: nat) {
    exists m: nat :: m <= n && Walk(store, req, x, m)
  }

  // ---------------------------------------------------------- the state of the walk

  /** The queue with the depth of each entry, and the distance of each expanded event. */
  datatype Front = Front(queue: seq<EventId>, depth: seq<nat>, dist: map<EventId, nat>, level: nat)

  predicate Layered(f: Front) {
    && |f.queue| == |f.depth|
    && (forall i :: 0 <= i < |f.depth| ==> f.level <= f.depth[i] <= f.level + 1)
    && (forall i, j :: 0 <= i < j < |f.depth| ==> f.depth[i] <= f.depth[j])
    && (forall x :: x in f.dist ==> f.dist[x] <= f.level)
  }

  ghost predicate Sound(store: map<EventId, Event>, req: Request, f: Front)
    requires |f.queue| == |f.depth|
  {
    && (forall i :: 0 <= i < |f.queue| ==> Offered(store, req, f.queue[i], f.depth[i]))
    && (forall x :: x in f.dist ==> Walk(store, req, x, f.dist[x]))
    && (forall x, m: nat :: x in f.dist && m < f.dist[x] ==> !Walk(store, req, x, m))
  }

  /** `y` was closed, expanded within `d` steps, or is queued with depth at most `d`. */
  ghost predicate Covered(store: map<EventId, Event>, req: Request, f: Front, y: EventId, d: nat)
    requires |f.queue| == |f.depth|
  {
    || !Open(store, req, y)
    || (y in f.dist && f.dist[y] <= d)
    || (exists i :: 0 <= i < |f.queue| && f.queue[i] == y && f.depth[i] <= d)
  }

  ghost predicate Complete(store: map<EventId, Event>, req: Request, f: Front)
    requires |f.queue| == |f.depth|
  {
    && (forall l :: l in req.latest ==> Covered(store, req, f, l, 0))
    && (forall x, y :: x in f.dist && x in store && y in store[x].prev ==> Covered(store, req, f, y, f.dist[x] + 1))
  }

  ghost predicate Inv(store: map<EventId, Event>, req: Request, f: Front) {
    Layered(f) && Sound(store, req, f) && Complete(store, req, f)
  }

  /** Any walk ends in an expanded event or passes the queue no deeper than its length. */
  lemma {:induction false} Frontier(store: map<EventId, Event>, req: Request, f: Front, x: EventId, n: nat)
    requires Inv(store, req, f) && Walk(store, req, x, n)
    ensures (x in f.dist && f.dist[x] <= n) || (exists i :: 0 <= i < |f.queue| && f.depth[i] <= n)
    decreases n
  {
    if n == 0 {
      assert Covered(store, req, f, x, 0);
    } else {
      var y :| y in store && Walk(store, req, y, n - 1) && x in store[y].prev;
      Frontier(store, req, f, y, n - 1);
      if y in f.dist && f.dist[y] <= n - 1 {
        assert Covered(store, req, f, x, f.dist[y] + 1);
      }
    }
  }

  lemma Start(store: map<EventId, Event>, req: Request)
    ensures Inv(store, req, Front(req.latest, seq(|req.latest|, _ => 0), map[], 0))
  {
    var f := Front(req.latest, seq(|req.latest|, _ => 0), map[], 0);
    forall l | l in req.latest
      ensures Covered(store, req, f, l, 0)
    {
      var i :| 0 <= i < |f.queue| && f.queue[i] == l;
      assert f.depth[i] == 0;
    }
  }

  function Pop(f: Front): Front
    requires |f.queue| == |f.depth| > 0
  {
    f.(queue := f.queue[1..], depth := f.depth[1..])
  }

  /** Dropping the head keeps the invariant when the head is closed or already expanded. */
  lemma Skip(store: map<EventId, Event>, req: Request, f: Front)
    requires Inv(store, req, f) && |f.queue| > 0
    requires f.queue[0] in f.dist || !Open(store, req, f.queue[0])
    ensures Inv(store, req, Pop(f))
  {
    hide Walk, Offered;
    var g := Pop(f);
    forall y, d | Covered(store, req, f, y, d)
      ensures Covered(store, req, g, y, d)
    {
      if Open(store, req, y) && !(y in f.dist && f.dist[y] <= d) {
        var i :| 0 <= i < |f.queue| && f.queue[i] == y && f.depth[i] <= d;
        assert i > 0;
        assert g.queue[i - 1] == y && g.depth[i - 1] <= d;
      }
    }
  }

  function Expand(f: Front, prev: seq<EventId>): Front
    requires |f.queue| == |f.depth| > 0
  {
    var d := f.depth[0];
    Front(f.queue[1..] + prev, f.depth[1..] + seq(|prev|, _ => d + 1), f.dist[f.queue[0] := d], d)
  }

  /** The head of the queue is as far away as its depth says. */
  lemma HeadDistance(store: map<EventId, Event>, req: Request, f: Front)
    requires Inv(store, req, f) && |f.queue| > 0 && f.queue[0] !in f.dist && Open(store, req, f.queue[0])
    ensures Walk(store, req, f.queue[0], f.depth[0])
    ensures forall m: nat :: m < f.depth[0] ==> !Walk(store, req, f.queue[0], m)
  {
    forall m: nat | m < f.depth[0]
      ensures !Walk(store, req, f.queue[0], m)
    {
      if Walk(store, req, f.queue[0], m) {
        Frontier(store, req, f, f.queue[0], m);
      }
    }
  }

  lemma ExpandLayered(f: Front, prev: seq<EventId>)
    requires Layered(f) && |f.queue| > 0
    ensures Layered(Expand(f, prev))
  {
  }

  lemma ExpandSound(store: map<EventId, Event>, req: Request, f: Front)
    requires Inv(store, req, f) && |f.queue| > 0 && f.queue[0] !in f.dist && Open(store, req, f.queue[0])
    ensures var g := Expand(f, store[f.queue[0]].prev);
            |g.queue| == |g.depth| && Sound(store, req, g)
  {
    HeadDistance(store, req, f);
    var (x, d) := (f.queue[0], f.depth[0]);
    var g := Expand(f, store[x].prev);
    forall i | 0 <= i < |g.queue|
      ensures Offered(store, req, g.queue[i], g.depth[i])
    {
      hide Walk;
      if i < |f.queue| - 1 {
        assert g.queue[i] == f.queue[i + 1] && g.depth[i] == f.depth[i + 1];
      } else {
        assert g.queue[i] in store[x].prev && g.depth[i] == d + 1;
      }
    }
  }

  lemma ExpandComplete(store: map<EventId, Event>, req: Request, f: Front)
    requires Inv(store, req, f) && |f.queue| > 0 && f.queue[0] !in f.dist && Open(store, req, f.queue[0])
    ensures var g := Expand(f, store[f.queue[0]].prev);
            |g.queue| == |g.depth| && Complete(store, req, g)
  {
    hide Walk, Offered;
    var (x, d) := (f.queue[0], f.depth[0]);
    var prev := store[x].prev;
    var g := Expand(f, prev);
    forall y, e | Covered(store, req, f, y, e)
      ensures Covered(store, req, g, y, e)
    {
      if Open(store, req, y) && !(y in f.dist && f.dist[y] <= e) {
        var i :| 0 <= i < |f.queue| && f.queue[i] == y && f.depth[i] <= e;
        if i > 0 {
          assert g.queue[i - 1] == y && g.depth[i - 1] <= e;
        }
      }
    }
    forall y | y in prev
      ensures Covered(store, req, g, y, d + 1)
    {
      var j :| 0 <= j < |prev| && prev[j] == y;
      var i := |f.queue| - 1 + j;
      assert g.queue[i] == y && g.depth[i] == d + 1;
    }
  }

  lemma ExpandInv(store: map<EventId, Event>, req: Request, f: Front)
    requires Inv(store, req, f) && |f.queue| > 0 && f.queue[0] !in f.dist && Open(store, req, f.queue[0])
    ensures Inv(store, req, Expand(f, store[f.queue[0]].prev))
  {
    ExpandLayered(f, store[f.queue[0]].prev);
    ExpandSound(store, req, f);
    ExpandComplete(store, req, f);
  }

  // --------------------------------------------------------------- the result list

  /** The events found so far: each expanded event that is not a latest one, once, in the
      order of distance. */
  predicate Collected(req: Request, dist: map<EventId, nat>, ids: seq<EventId>) {
    && (forall i :: 0 <= i < |ids| ==> ids[i] in dist && ids[i] !in req.latest)
    && (forall x :: x in dist && x !in req.latest ==> x in ids)
    && (forall i, j :: 0 <= i < j < |ids| ==> ids[i] != ids[j])
    && (forall i, j :: 0 <= i < j < |ids| && ids[i] in dist && ids[j] in dist ==> dist[ids[i]] <= dist[ids[j]])
  }

  function Ids(events: seq<Sent>): (ids: seq<EventId>)
    ensures |ids| == |events|
  {
    seq(|events|, i requires 0 <= i < |events| => events[i].id)
  }

  lemma CollectNothing(req: Request, f: Front)
    requires f.dist == map[]
    ensures Collected(req, f.dist, Ids([]))
  {
  }

  lemma CollectMore(req: Request, f: Front, prev: seq<EventId>, ids: seq<EventId>)
    requires Layered(f) && |f.queue| > 0 && f.queue[0] !in f.dist && Collected(req, f.dist, ids)
    ensures var x := f.queue[0];
            Collected(req, Expand(f, prev).dist, if x in req.latest then ids else ids + [x])
  {
    var x := f.queue[0];
    var g := Expand(f, prev);
    var all := if x in req.latest then ids else ids + [x];
    assert forall i :: 0 <= i < |ids| ==> all[i] == ids[i];
    assert forall y :: y in ids ==> y in all;
  }

  /** What the walk promises about the events it collected, in the order it found them. */
  ghost predicate NearestFirst(store: map<EventId, Event>, req: Request, ids: seq<EventId>) {
    && (forall i, j :: 0 <= i < j < |ids| ==> ids[i] != ids[j])
    && (forall i :: 0 <= i < |ids| ==> Reachable(store, req, ids[i]) && ids[i] !in req.latest)
    && (forall i, j, n: nat :: 0 <= i < j < |ids| && Walk(store, req, ids[j], n) ==> Within(store, req, ids[i], n))
    && (forall y, n: nat, j :: Walk(store, req, y, n) && y !in ids && y !in req.latest && 0 <= j < |ids|
                          ==> Within(store, req, ids[j], n))
  }

  lemma Nearest(store: map<EventId, Event>, req: Request, f: Front, ids: seq<EventId>)
    requires Inv(store, req, f) && Collected(req, f.dist, ids)
    ensures NearestFirst(store, req, ids)
  {
    forall j, n: nat, y | 0 <= j < |ids| && Walk(store, req, y, n) && y !in req.latest && (y !in ids || y in ids[j..])
      ensures Within(store, req, ids[j], n)
    {
      Frontier(store, req, f, y, n);
      assert f.dist[ids[j]] <= n && Walk(store, req, ids[j], f.dist[ids[j]]);
    }
    assert forall i :: 0 <= i < |ids| ==> Walk(store, req, ids[i], f.dist[ids[i]]);
  }

  lemma Drained(store: map<EventId, Event>, req: Request, f: Front, ids: seq<EventId>)
    requires Inv(store, req, f) && Collected(req, f.dist, ids) && f.queue == []
    ensures forall y :: Reachable(store, req, y) ==> y in f.dist && (y in ids || y in req.latest)
  {
    forall y | Reachable(store, req, y)
      ensures y in f.dist && (y in ids || y in req.latest)
    {
      var n :| Walk(store, req, y, n);
      Frontier(store, req, f, y, n);
    }
  }

  /** Once an event was collected, every open latest event was expanded. */
  lemma LatestExpanded(store: map<EventId, Event>, req: Request, f: Front, ids: seq<EventId>)
    requires Inv(store, req, f) && Collected(req, f.dist, ids) && ids != []
    ensures forall y :: y in req.latest && Open(store, req, y) ==> y in f.dist
  {
    var x := ids[0];
    assert Walk(store, req, x, f.dist[x]) && !Walk(store, req, x, 0);
    forall y | y in req.latest && Open(store, req, y)
      ensures y in f.dist
    {
      Frontier(store, req, f, y, 0);
    }
  }

  ghost predicate InRoom(store: map<EventId, Event>, req: Request, y: EventId) {
    y in store && store[y].room == req.room
  }

  // ----------------------------------------------------------------------- the walk

  /** `get_missing_events_route` behind the access checks. */
  method GetMissingEvents(store: map<EventId, Event>, req: Request, visible: set<EventId>) returns (answer: Answer)
    ensures answer.NotInRoom? ==> Reachable(store, req, answer.id) && store[answer.id].room != req.room
    ensures answer.Events? ==> NearestFirst(store, req, Reverse(Ids(answer.events)))
    ensures answer.Events? ==> |answer.events| <= req.limit && |answer.events| <= 50
    ensures answer.Events? && |answer.events| < req.limit && |answer.events| < 50 ==>
              forall y :: Reachable(store, req, y) ==> InRoom(store, req, y) && (y in Ids(answer.events) || y in req.latest)
    ensures answer.Events? && req.limit > 0 ==> forall y :: y in req.latest && Open(store, req, y) ==> InRoom(store, req, y)
    ensures answer.Events? ==> forall e :: e in answer.events ==>
              e.id in store && store[e.id].room == req.room && e.redacted == (e.id !in visible)
  {
    hide Walk, Offered, Sound, Complete, Layered, Collected, NearestFirst;
    var limit := Limit(req);
    var queue, results: seq<Sent> := req.latest, [];
    var seen := set x | x in req.earliest;
    ghost var f := Front(req.latest, seq(|req.latest|, _ => 0), map[], 0);
    Start(store, req);
    assert Collected(req, f.dist, Ids([])) by { CollectNothing(req, f); }
    var cut := false;
    while queue != []
      invariant queue == f.queue && Inv(store, req, f)
      invariant seen == (set x | x in req.earliest) + f.dist.Keys
      invariant Collected(req, f.dist, Ids(results)) && |results| <= limit
      invariant forall y :: y in f.dist ==> InRoom(store, req, y)
      invariant forall e :: e in results ==>
                  e.id in store && store[e.id].room == req.room && e.redacted == (e.id !in visible)
      decreases store.Keys - seen, |queue|
    {
      var next := queue[0];
      if next in seen {
        assert |f.queue| == |f.depth| by { LayeredShape(f); }
        Skip(store, req, f);
        f := Pop(f);
        queue := queue[1..];
        continue;
      }
      if |results| >= limit {
        cut := true;
        break;
      }
      assert |f.queue| == |f.depth| by { LayeredShape(f); }
      if next !in store {
        Skip(store, req, f);
        f := Pop(f);
        queue := queue[1..];
        continue;
      }
      HeadDistance(store, req, f);
      if store[next].room != req.room {
        return NotInRoom(next);
      }
      ExpandInv(store, req, f);
      CollectMore(req, f, store[next].prev, Ids(results));
      queue := queue[1..] + store[next].prev;
      seen := seen + {next};
      f := Expand(f, store[next].prev);
      if next in req.latest {
        continue;
      }
      ghost var before := results;
      results := results + [Sent(next, next !in visible)];
      assert Ids(results) == Ids(before) + [next];
    }
    Nearest(store, req, f, Ids(results));
    if !cut {
      Drained(store, req, f, Ids(results));
      assert forall y :: y in req.latest && Open(store, req, y) ==> Reachable(store, req, y) by { LatestReachable(store, req); }
    } else if limit > 0 {
      LatestExpanded(store, req, f, Ids(results));
    }
    answer := Events(Reverse(results));
    assert Reverse(Ids(answer.events)) == Ids(results);
    ReverseIds(results);
  }

  lemma LatestReachable(store: map<EventId, Event>, req: Request)
    ensures forall y :: y in req.latest && Open(store, req, y) ==> Reachable(store, req, y)
  {
    forall y | y in req.latest && Open(store, req, y)
      ensures Reachable(store, req, y)
    {
      assert Walk(store, req, y, 0);
    }
  }

  lemma LayeredShape(f: Front)
    requires Layered(f)
    ensures |f.queue| == |f.depth|
  {
  }

  lemma ReverseIds(s: seq<Sent>)
    ensures forall e :: e in Reverse(s) <==> e in s
    ensures forall x :: x in Ids(Reverse(s)) <==> x in Ids(s)
  {
    var r := Reverse(s);
    ReverseMembers(s);
    forall x | x in Ids(s)
      ensures x in Ids(r)
    {
      var i :| 0 <= i < |s| && s[i].id == x;
      assert Ids(r)[|s| - 1 - i] == x;
    }
    forall x | x in Ids(r)
      ensures x in Ids(s)
    {
      var i :| 0 <= i < |r| && r[i].id == x;
      assert Ids(s)[|s| - 1 - i] == x;
    }
  }
}
