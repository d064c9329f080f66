/** The space hierarchy walk of `get_client_hierarchy` over an arbitrary, possibly cyclic graph. */
module SpaceWalk {
  import opened Sequences

  type Room = string

  /** What the spaces service says about a room; a room that is not in the map has no summary. */
  datatype Summary = Inaccessible | Accessible(children: seq<Room>)

  datatype Result = Rooms(rooms: seq<Room>) | Forbidden

  type Graph = map<Room, Summary>

  predicate IsOpen(g: Graph, x: Room) {
    x in g && g[x].Accessible?
  }

  function OpenRooms(g: Graph): set<Room> {
    set x | x in g && IsOpen(g, x)
  }

  /** `x` is `n` links below `root`, all of them in accessible rooms. */
  ghost predicate Below(g: Graph, root: Room, x: Room, n: nat)
    decreases n
  {
    if n == 0 then x == root
    else exists y :: IsOpen(g, y) && Below(g, root, y, n - 1) && x in g[y].children
  }

  ghost predicate Linked(g: Graph, root: Room, x: Room) {
    exists n: nat :: Below(g, root, x, n)
  }

  /** The accessible rooms below `root`. */
  ghost function Under(g: Graph, root: Room): set<Room> {
    set x | x in g && IsOpen(g, x) && Linked(g, root, x)
  }

  lemma LinkChild(g: Graph, root: Room, y: Room, x: Room)
    requires IsOpen(g, y) && Linked(g, root, y) && x in g[y].children
    ensures Linked(g, root, x)
  {
    var n: nat :| Below(g, root, y, n);
    assert Below(g, root, x, n + 1);
  }

  // ------------------------------------------------------------------ child selection

  function NotIn(xs: seq<Room>, parents: set<Room>): (r: seq<Room>)
    ensures forall x :: x in r <==> x in xs && x !in parents
  {
    if xs == [] then []
    else (if xs[0] in parents then [] else [xs[0]]) + NotIn(xs[1..], parents)
  }

  /** Skips the children in front of the one the pagination token points at; a child without a short
      id ends the skipping. */
  function SkipTo(xs: seq<Room>, short: map<Room, nat>, want: seq<nat>): (r: seq<Room>)
    ensures forall x :: x in r ==> x in xs
  {
    if xs == [] || xs[0] !in short || [short[xs[0]]] == want then xs else SkipTo(xs[1..], short, want)
  }

  /** The cut-offs, and the position that a pagination token stands for. */
  datatype Query = Query(limit: nat, maxDepth: nat, short: map<Room, nat>, shortIds: seq<nat>)

  /** The children of `x` in the order in which they are queued. */
  function Kids(g: Graph, q: Query, x: Room, parents: set<Room>): (r: seq<Room>)
    requires IsOpen(g, x)
    ensures forall k :: k in r ==> k in g[x].children && k !in parents
    ensures |parents| >= |q.shortIds| ==> forall k :: k in g[x].children && k !in parents ==> k in r
  {
    var found := NotIn(g[x].children, parents);
    var chosen := if |parents| >= |q.shortIds| then found else SkipTo(found, q.short, [q.shortIds[|parents|]]);
    ReverseMembers(chosen);
    Reverse(chosen)
  }

  // ------------------------------------------------------------------- termination

  /** Queue entries that were already expanded. */
  function Stale(queue: seq<Room>, parents: set<Room>): nat {
    if queue == [] then 0 else (if queue[0] in parents then 1 else 0) + Stale(queue[1..], parents)
  }

  lemma {:induction false} StaleAppend(queue: seq<Room>, added: seq<Room>, parents: set<Room>)
    requires forall x :: x in added ==> x !in parents
    ensures Stale(queue + added, parents) == Stale(queue, parents)
  {
    if queue == [] {
      assert queue + added == added;
      StaleNone(added, parents);
    } else {
      assert (queue + added)[1..] == queue[1..] + added;
      StaleAppend(queue[1..], added, parents);
    }
  }

  lemma {:induction false} StaleNone(added: seq<Room>, parents: set<Room>)
    requires forall x :: x in added ==> x !in parents
    ensures Stale(added, parents) == 0
  {
    if added != [] {
      StaleNone(added[1..], parents);
    }
  }

  // --------------------------------------------------------------- soundness invariant

  ghost predicate Sound(g: Graph, root: Room, queue: seq<Room>, parents: set<Room>, rooms: seq<Room>) {
    && (forall x :: x in queue ==> Linked(g, root, x))
    && (forall x :: x in parents ==> IsOpen(g, x) && Linked(g, root, x))
    && (forall x :: x in rooms ==> IsOpen(g, x) && Linked(g, root, x))
  }

  lemma Expand(g: Graph, root: Room, x: Room, queue: seq<Room>, kids: seq<Room>, parents: set<Room>, rooms: seq<Room>)
    requires Sound(g, root, [x] + queue, parents, rooms) && IsOpen(g, x)
    requires forall k :: k in kids ==> k in g[x].children
    ensures Sound(g, root, queue, parents + {x}, rooms)
    ensures Sound(g, root, queue, parents + {x}, rooms + [x])
    ensures Sound(g, root, queue + kids, parents + {x}, rooms)
    ensures Sound(g, root, queue + kids, parents + {x}, rooms + [x])
  {
    assert x in [x] + queue;
    forall k | k in kids
      ensures Linked(g, root, k)
    {
      LinkChild(g, root, x, k);
    }
    assert forall y :: y in queue ==> y in [x] + queue;
  }

  lemma PassOver(g: Graph, root: Room, x: Room, queue: seq<Room>, parents: set<Room>, rooms: seq<Room>)
    requires Sound(g, root, [x] + queue, parents, rooms)
    ensures Sound(g, root, queue, parents, rooms)
  {
    assert forall y :: y in queue ==> y in [x] + queue;
  }

  // ------------------------------------------------------------------- what is listed

  /** The root, or a child of a room in `exp`. */
  predicate Offered(g: Graph, root: Room, exp: set<Room>, x: Room) {
    x == root || exists y :: y in exp && IsOpen(g, y) && x in g[y].children
  }

  /** The rooms listed first, up to place `k`, are the expanded ones: at most `maxDepth` distinct rooms, and
      so many unless all listed rooms were expanded. */
  ghost predicate Cut(rooms: seq<Room>, k: nat, maxDepth: nat) {
    && k <= |rooms| && |Members(rooms[..k])| <= maxDepth
    && (k < |rooms| ==> |Members(rooms[..k])| == maxDepth)
  }

  ghost function Members(rooms: seq<Room>): set<Room> {
    set x | x in rooms
  }

  /** Without a limit exactly the accessible rooms are listed that are the root or a child of one of the
      first `maxDepth` rooms. */
  ghost predicate Complete(g: Graph, root: Room, rooms: seq<Room>, k: nat, maxDepth: nat) {
    Cut(rooms, k, maxDepth) && forall x :: x in rooms <==> IsOpen(g, x) && Offered(g, root, Members(rooms[..k]), x)
  }

  /** The same with rooms that are still queued; before the cut-off every listed room was expanded. */
  ghost predicate Spanned(g: Graph, root: Room, queue: seq<Room>, parents: set<Room>, rooms: seq<Room>, k: nat, maxDepth: nat) {
    && Cut(rooms, k, maxDepth) && parents == Members(rooms) && (k < |rooms| ==> |parents| > maxDepth)
    && (forall x :: x in rooms ==> IsOpen(g, x))
    && (forall x :: IsOpen(g, x) ==> (x in parents || x in queue <==> Offered(g, root, Members(rooms[..k]), x)))
  }

  lemma MembersSnoc(rooms: seq<Room>, x: Room)
    ensures Members(rooms + [x]) == Members(rooms) + {x}
    ensures |Members(rooms)| <= |Members(rooms) + {x}| <= |Members(rooms)| + 1
  {
    if x in rooms {
      assert Members(rooms) + {x} == Members(rooms);
    }
  }

  lemma SpannedPass(g: Graph, root: Room, x: Room, queue: seq<Room>, parents: set<Room>, rooms: seq<Room>, k: nat, maxDepth: nat)
    requires Spanned(g, root, [x] + queue, parents, rooms, k, maxDepth) && !IsOpen(g, x)
    ensures Spanned(g, root, queue, parents, rooms, k, maxDepth)
  {
    hide Offered;
    assert forall y :: y in [x] + queue <==> y == x || y in queue;
  }

  /** Where the expanded rooms end after a turn at `x`. */
  function NextCut(rooms: seq<Room>, k: nat, parents: set<Room>, x: Room, maxDepth: nat): nat {
    if |parents + {x}| > maxDepth then k else |rooms| + 1
  }

  /** Behind the cut-off a room is listed and not expanded. */
  lemma SpannedCut(g: Graph, root: Room, x: Room, queue: seq<Room>, parents: set<Room>, rooms: seq<Room>, k: nat, maxDepth: nat)
    requires Spanned(g, root, [x] + queue, parents, rooms, k, maxDepth) && IsOpen(g, x) && |parents + {x}| > maxDepth
    ensures Spanned(g, root, queue, parents + {x}, rooms + [x], k, maxDepth)
  {
    assert forall y :: y in [x] + queue <==> y == x || y in queue;
    assert (rooms + [x])[..k] == rooms[..k];
    assert k == |rooms| ==> rooms[..k] == rooms;
    MembersSnoc(rooms, x);
    hide Offered, Members;
  }

  lemma SpannedGrow(g: Graph, root: Room, x: Room, queue: seq<Room>, kids: seq<Room>, parents: set<Room>, rooms: seq<Room>,
                    maxDepth: nat)
    requires Spanned(g, root, [x] + queue, parents, rooms, |rooms|, maxDepth) && IsOpen(g, x) && |parents + {x}| <= maxDepth
    requires forall y :: y in kids <==> y in g[x].children && y !in parents
    ensures Spanned(g, root, queue + kids, parents + {x}, rooms + [x], |rooms| + 1, maxDepth)
  {
    assert forall y :: y in [x] + queue <==> y == x || y in queue;
    assert rooms[..|rooms|] == rooms && (rooms + [x])[..|rooms| + 1] == rooms + [x];
    MembersSnoc(rooms, x);
    OfferedMore(g, root, parents, x);
    hide Offered, Members;
  }

  lemma SpannedTurn(g: Graph, root: Room, x: Room, queue: seq<Room>, kids: seq<Room>, parents: set<Room>, rooms: seq<Room>,
                    k: nat, maxDepth: nat)
    requires Spanned(g, root, [x] + queue, parents, rooms, k, maxDepth) && IsOpen(g, x)
    requires forall y :: y in kids <==> y in g[x].children && y !in parents
    ensures var more := if |parents + {x}| > maxDepth then queue else queue + kids;
            Spanned(g, root, more, parents + {x}, rooms + [x], NextCut(rooms, k, parents, x, maxDepth), maxDepth)
  {
    hide Spanned;
    if |parents + {x}| > maxDepth {
      SpannedCut(g, root, x, queue, parents, rooms, k, maxDepth);
    } else {
      Uncut(g, root, [x] + queue, parents, rooms, k, maxDepth, x);
      SpannedGrow(g, root, x, queue, kids, parents, rooms, maxDepth);
    }
  }

  lemma OfferedMore(g: Graph, root: Room, exp: set<Room>, x: Room)
    requires IsOpen(g, x)
    ensures forall y :: Offered(g, root, exp + {x}, y) <==> Offered(g, root, exp, y) || y in g[x].children
  {
  }

  lemma SpannedEnd(g: Graph, root: Room, parents: set<Room>, rooms: seq<Room>, k: nat, maxDepth: nat)
    requires Spanned(g, root, [], parents, rooms, k, maxDepth)
    ensures Complete(g, root, rooms, k, maxDepth)
  {
    hide Offered;
  }

  lemma {:induction false} ExpandedReaches(g: Graph, root: Room, rooms: seq<Room>, maxDepth: nat, x: Room, n: nat)
    requires Complete(g, root, rooms, |rooms|, maxDepth) && IsOpen(g, x) && Below(g, root, x, n)
    ensures x in rooms
    decreases n
  {
    if n > 0 {
      var y :| IsOpen(g, y) && Below(g, root, y, n - 1) && x in g[y].children;
      ExpandedReaches(g, root, rooms, maxDepth, y, n - 1);
      assert y in Members(rooms[..|rooms|]);
    }
  }

  /** A walk that lists at most `maxDepth` distinct rooms lists all accessible rooms under the root. */
  lemma AllListed(g: Graph, root: Room, rooms: seq<Room>, k: nat, maxDepth: nat)
    requires Complete(g, root, rooms, k, maxDepth) && |Members(rooms)| <= maxDepth
    ensures forall x :: x in Under(g, root) ==> x in rooms
  {
    var exp := Members(rooms[..k]);
    assert exp <= Members(rooms);
    if k < |rooms| {
      SubsetFull(exp, Members(rooms));
    }
    assert exp == Members(rooms) == Members(rooms[..|rooms|]);
    assert Complete(g, root, rooms, |rooms|, maxDepth);
    hide Complete;
    forall x | x in Under(g, root)
      ensures x in rooms
    {
      var n: nat :| Below(g, root, x, n);
      ExpandedReaches(g, root, rooms, maxDepth, x, n);
    }
  }

  lemma SubsetFull(a: set<Room>, b: set<Room>)
    requires a <= b && |b| <= |a|
    ensures a == b
  {
    if x :| x in b && x !in a {
      assert a <= b - {x};
      SubsetSize(a, b - {x});
    }
  }

  lemma SubsetSize(a: set<Room>, b: set<Room>)
    requires a <= b
    ensures |a| <= |b|
  {
    assert b == a + (b - a);
  }

  // ------------------------------------------------------------- the order of the listing

  ghost predicate Within(g: Graph, root: Room, x: Room, n: nat) {
    exists m: nat :: m <= n && Below(g, root, x, m)
  }

  /** Place `j` is where its room is listed for the first time. */
  predicate First(rooms: seq<Room>, j: nat)
    requires j < |rooms|
  {
    rooms[j] !in rooms[..j]
  }

  /** No room is listed behind the first occurrence of a farther one. */
  ghost predicate Ordered(g: Graph, root: Room, rooms: seq<Room>) {
    forall i, j, n: nat :: 0 <= i < j < |rooms| && First(rooms, j) && Below(g, root, rooms[j], n) ==>
      Within(g, root, rooms[i], n)
  }

  /** The rooms come in the order of their distance from the root, and no accessible room that was left out
      is nearer than a listed one. */
  ghost predicate NearestFirst(g: Graph, root: Room, rooms: seq<Room>) {
    && Ordered(g, root, rooms)
    && (forall y, n: nat, i :: IsOpen(g, y) && y !in rooms && Below(g, root, y, n) && 0 <= i < |rooms| ==>
          Within(g, root, rooms[i], n))
  }

  /** The queue with the distance of each entry: the current level, then the next one. */
  ghost predicate Layers(g: Graph, root: Room, queue: seq<Room>, depth: seq<nat>, level: nat) {
    && |depth| == |queue|
    && (forall i :: 0 <= i < |queue| ==> level <= depth[i] <= level + 1 && Below(g, root, queue[i], depth[i]))
    && (forall i, j :: 0 <= i < j < |depth| ==> depth[i] <= depth[j])
  }

  predicate Queued(queue: seq<Room>, depth: seq<nat>, x: Room, n: nat)
    requires |depth| == |queue|
  {
    exists i :: 0 <= i < |queue| && queue[i] == x && depth[i] <= n
  }

  /** Every accessible room up to the current level was listed or is queued in time. */
  ghost predicate Frontier(g: Graph, root: Room, queue: seq<Room>, depth: seq<nat>, level: nat, rooms: seq<Room>)
    requires |depth| == |queue|
  {
    forall x, n: nat :: IsOpen(g, x) && Below(g, root, x, n) && n <= level ==> x in rooms || Queued(queue, depth, x, n)
  }

  /** The listed rooms are not farther than the queued ones. */
  ghost predicate Passed(g: Graph, root: Room, rooms: seq<Room>, depth: seq<nat>, level: nat) {
    forall i :: 0 <= i < |rooms| ==>
      Within(g, root, rooms[i], level + 1) && forall j :: 0 <= j < |depth| ==> Within(g, root, rooms[i], depth[j])
  }

  ghost predicate Breadth(g: Graph, root: Room, queue: seq<Room>, depth: seq<nat>, level: nat, rooms: seq<Room>) {
    && Layers(g, root, queue, depth, level) && Frontier(g, root, queue, depth, level, rooms)
    && Passed(g, root, rooms, depth, level) && Ordered(g, root, rooms)
  }

  lemma BreadthBegin(g: Graph, root: Room)
    ensures Breadth(g, root, [root], [0], 0, [])
  {
    assert Queued([root], [0], root, 0) by { assert [root][0] == root; }
  }

  lemma BreadthEnd(g: Graph, root: Room, queue: seq<Room>, depth: seq<nat>, level: nat, rooms: seq<Room>)
    requires Breadth(g, root, queue, depth, level, rooms)
    ensures NearestFirst(g, root, rooms)
  {
    forall y, n: nat, i | IsOpen(g, y) && y !in rooms && Below(g, root, y, n) && 0 <= i < |rooms|
      ensures Within(g, root, rooms[i], n)
    {
      if n <= level {
        assert Queued(queue, depth, y, n);
      }
    }
  }

  /** When the current level is done and nothing was cut off, the next level is complete in the queue. */
  lemma NextLevel(g: Graph, root: Room, queue: seq<Room>, depth: seq<nat>, level: nat, parents: set<Room>, rooms: seq<Room>,
                  maxDepth: nat)
    requires Breadth(g, root, queue, depth, level, rooms) && queue != [] && depth[0] == level + 1
    requires Spanned(g, root, queue, parents, rooms, |rooms|, maxDepth)
    ensures Breadth(g, root, queue, depth, level + 1, rooms)
  {
    forall x, n: nat | IsOpen(g, x) && Below(g, root, x, n) && n <= level + 1
      ensures x in rooms || Queued(queue, depth, x, n)
    {
      if n == level + 1 {
        var y :| IsOpen(g, y) && Below(g, root, y, n - 1) && x in g[y].children;
        assert y in rooms;
        assert y in Members(rooms[..|rooms|]);
        assert Offered(g, root, Members(rooms[..|rooms|]), x);
        if x in queue {
          var i :| 0 <= i < |queue| && queue[i] == x;
          assert depth[i] == level + 1;
        }
      }
    }
    PassedMore(g, root, rooms, depth, level);
  }

  lemma PassedMore(g: Graph, root: Room, rooms: seq<Room>, depth: seq<nat>, level: nat)
    requires Passed(g, root, rooms, depth, level)
    ensures Passed(g, root, rooms, depth, level + 1)
  {
    forall i | 0 <= i < |rooms|
      ensures Within(g, root, rooms[i], level + 2)
    {
      assert Within(g, root, rooms[i], level + 1);
    }
  }

  /** The head of the queue is passed over, or listed. */
  lemma BreadthPass(g: Graph, root: Room, queue: seq<Room>, depth: seq<nat>, level: nat, rooms: seq<Room>)
    requires Breadth(g, root, queue, depth, level, rooms) && queue != [] && !IsOpen(g, queue[0])
    ensures Breadth(g, root, queue[1..], depth[1..], level, rooms)
  {
    PopFrontier(g, root, queue, depth, level, rooms, rooms);
  }

  lemma PopFrontier(g: Graph, root: Room, queue: seq<Room>, depth: seq<nat>, level: nat, rooms: seq<Room>, more: seq<Room>)
    requires |depth| == |queue| && queue != [] && Frontier(g, root, queue, depth, level, rooms)
    requires (forall x :: x in rooms ==> x in more) && (IsOpen(g, queue[0]) ==> queue[0] in more)
    ensures Frontier(g, root, queue[1..], depth[1..], level, more)
  {
    forall x, n: nat | IsOpen(g, x) && Below(g, root, x, n) && n <= level
      ensures x in more || Queued(queue[1..], depth[1..], x, n)
    {
      if x !in more {
        var i :| 0 <= i < |queue| && queue[i] == x && depth[i] <= n;
        assert queue[1..][i - 1] == x;
      }
    }
  }

  /** A room that is listed for the first time was queued at its distance. */
  lemma HeadIsNearest(g: Graph, root: Room, queue: seq<Room>, depth: seq<nat>, level: nat, rooms: seq<Room>, n: nat)
    requires Breadth(g, root, queue, depth, level, rooms) && queue != [] && IsOpen(g, queue[0])
    requires queue[0] !in rooms && Below(g, root, queue[0], n)
    ensures depth[0] <= n
  {
    if n <= level {
      assert Queued(queue, depth, queue[0], n);
    }
  }

  lemma OrderedSnoc(g: Graph, root: Room, rooms: seq<Room>, x: Room, d: nat)
    requires Ordered(g, root, rooms) && forall i :: 0 <= i < |rooms| ==> Within(g, root, rooms[i], d)
    requires x in rooms || forall n: nat :: Below(g, root, x, n) ==> d <= n
    ensures Ordered(g, root, rooms + [x])
  {
    var all := rooms + [x];
    forall i, j, n: nat | 0 <= i < j < |all| && First(all, j) && Below(g, root, all[j], n)
      ensures Within(g, root, all[i], n)
    {
      assert all[..j] == rooms[..j] && all[i] == rooms[i];
      if j < |rooms| {
        assert First(rooms, j) && all[j] == rooms[j];
      } else {
        assert rooms[..j] == rooms && all[j] == x;
        assert x !in rooms && Below(g, root, x, n);
        var m: nat :| m <= d && Below(g, root, rooms[i], m);
      }
    }
  }

  lemma BreadthList(g: Graph, root: Room, queue: seq<Room>, depth: seq<nat>, level: nat, rooms: seq<Room>)
    requires Breadth(g, root, queue, depth, level, rooms) && queue != [] && IsOpen(g, queue[0])
    ensures Breadth(g, root, queue[1..], depth[1..], level, rooms + [queue[0]])
  {
    var (x, d) := (queue[0], depth[0]);
    if x !in rooms {
      forall n: nat | Below(g, root, x, n)
        ensures d <= n
      {
        HeadIsNearest(g, root, queue, depth, level, rooms, n);
      }
    }
    OrderedSnoc(g, root, rooms, x, d);
    PopFrontier(g, root, queue, depth, level, rooms, rooms + [x]);
    assert Passed(g, root, rooms + [x], depth[1..], level) by {
      assert Below(g, root, x, d);
    }
  }

  /** The children of the room that was listed are one level deeper. */
  lemma BreadthPush(g: Graph, root: Room, x: Room, queue: seq<Room>, depth: seq<nat>, level: nat, rooms: seq<Room>, kids: seq<Room>)
    requires Breadth(g, root, queue, depth, level, rooms) && IsOpen(g, x) && Below(g, root, x, level)
    requires forall y :: y in kids ==> y in g[x].children
    ensures Breadth(g, root, queue + kids, depth + seq(|kids|, _ => level + 1), level, rooms)
  {
    var (queue', depth') := (queue + kids, depth + seq(|kids|, _ => level + 1));
    assert Layers(g, root, queue', depth', level) by {
      hide Frontier, Passed, Ordered;
      forall i | 0 <= i < |kids|
        ensures Below(g, root, kids[i], level + 1)
      {
        assert kids[i] in g[x].children;
      }
    }
    assert Passed(g, root, rooms, depth', level) by {
      hide Frontier, Layers, Ordered, Within, Below;
    }
    hide Layers, Frontier, Passed, Ordered, Below;
    PushFrontier(g, root, queue, depth, level, rooms, queue', depth');
  }

  lemma PushFrontier(g: Graph, root: Room, queue: seq<Room>, depth: seq<nat>, level: nat, rooms: seq<Room>,
                     queue': seq<Room>, depth': seq<nat>)
    requires |depth| == |queue| && |depth'| == |queue'| && queue <= queue' && depth <= depth'
    requires Frontier(g, root, queue, depth, level, rooms)
    ensures Frontier(g, root, queue', depth', level, rooms)
  {
    forall y, n: nat | IsOpen(g, y) && Below(g, root, y, n) && n <= level
      ensures y in rooms || Queued(queue', depth', y, n)
    {
      if y !in rooms {
        var i :| 0 <= i < |queue| && queue[i] == y && depth[i] <= n;
        assert queue'[i] == y && depth'[i] == depth[i];
      }
    }
  }

  // ---------------------------------------------------------------------- the walk

  /** The listing as a function, with its order among rooms of equal distance. */
  function Walk(g: Graph, root: Room, q: Query, queue: seq<Room>, parents: set<Room>, rooms: seq<Room>): Result
    requires parents <= OpenRooms(g)
    decreases OpenRooms(g) - parents, Stale(queue, parents), |queue|
  {
    if queue == [] then Rooms(rooms)
    else
      var (x, rest) := (queue[0], queue[1..]);
      PopStale(g, queue, parents);
      if !IsOpen(g, x) then (if x == root then Forbidden else Walk(g, root, q, rest, parents, rooms))
      else
        var populate := |parents| >= |q.shortIds|;
        var kids := Kids(g, q, x, parents);
        var listed := if populate then rooms + [x] else rooms;
        if (!populate && rest == [] && kids == []) || |listed| >= q.limit then Rooms(listed)
        else
          GrowParents(g, rest, kids, parents, x);
          var more := if |parents + {x}| > q.maxDepth then rest else rest + kids;
          Walk(g, root, q, more, parents + {x}, listed)
  }

  method GetHierarchy(g: Graph, root: Room, q: Query) returns (r: Result)
    ensures r == Walk(g, root, q, [root], {}, [])
    ensures r.Forbidden? <==> !IsOpen(g, root)
    ensures r.Rooms? ==> forall x :: x in r.rooms ==> x in Under(g, root)
    ensures r.Rooms? ==> |r.rooms| <= if q.limit == 0 then 1 else q.limit
    ensures r.Rooms? && q.shortIds == [] ==> NearestFirst(g, root, r.rooms)
    ensures r.Rooms? && q.shortIds == [] && |r.rooms| < q.limit ==> exists k :: Complete(g, root, r.rooms, k, q.maxDepth)
    ensures r.Rooms? && q.shortIds == [] && |Under(g, root)| <= q.maxDepth && |r.rooms| < q.limit ==>
              forall x :: x in Under(g, root) ==> x in r.rooms
  {
    hide Sound, Linked, Stale, OpenRooms, Kids, Under, Spanned, Breadth, Complete, NearestFirst, Below;
    var queue, rooms: seq<Room>, parents: set<Room> := [root], [], {};
    ghost var plain := q.shortIds == [];
    ghost var depth: seq<nat>, level: nat, k: nat := [0], 0, 0;
    Begin(g, root, q.maxDepth);
    while queue != []
      invariant Sound(g, root, queue, parents, rooms)
      invariant plain ==> Spanned(g, root, queue, parents, rooms, k, q.maxDepth)
      invariant plain ==> Breadth(g, root, queue, depth, level, rooms) && NearestFirst(g, root, rooms)
      invariant rooms == [] || |rooms| < q.limit
      invariant parents <= OpenRooms(g)
      invariant Walk(g, root, q, queue, parents, rooms) == Walk(g, root, q, [root], {}, [])
      invariant queue == [root] || IsOpen(g, root)
      decreases OpenRooms(g) - parents, Stale(queue, parents), |queue|
    {
      var current, rest := queue[0], queue[1..];
      assert queue == [current] + rest;
      PopStale(g, queue, parents);
      if plain {
        level := Raise(g, root, queue, depth, level, parents, rooms, k, q.maxDepth);
      }
      if !IsOpen(g, current) {
        if current == root {
          return Forbidden;
        }
        PassOver(g, root, current, rest, parents, rooms);
        if plain {
          SpannedPass(g, root, current, rest, parents, rooms, k, q.maxDepth);
          BreadthPass(g, root, queue, depth, level, rooms);
          depth := depth[1..];
        }
        queue := rest;
      } else {
        var populate := |parents| >= |q.shortIds|;
        var children := Kids(g, q, current, parents);
        Expand(g, root, current, rest, children, parents, rooms);
        GrowParents(g, rest, children, parents, current);
        if plain {
          ghost var expand := |parents + {current}| <= q.maxDepth;
          if expand {
            Uncut(g, root, queue, parents, rooms, k, q.maxDepth, current);
          }
          SpannedTurn(g, root, current, rest, children, parents, rooms, k, q.maxDepth);
          depth := Visit(g, root, queue, depth, level, rooms, children, expand);
          k := NextCut(rooms, k, parents, current, q.maxDepth);
        }
        queue := rest;
        if populate {
          rooms := rooms + [current];
        }
        if !populate && queue == [] && children == [] {
          break;
        }
        parents := parents + {current};
        if |rooms| >= q.limit {
          break;
        }
        if |parents| > q.maxDepth {
          continue;
        }
        queue := queue + children;
      }
    }
    r := Rooms(rooms);
    SoundRooms(g, root, queue, parents, rooms);
    if plain && |rooms| < q.limit {
      SpannedEnd(g, root, parents, rooms, k, q.maxDepth);
      if |Under(g, root)| <= q.maxDepth {
        FewListed(g, root, rooms);
        AllListed(g, root, rooms, k, q.maxDepth);
      }
    }
  }

  lemma Begin(g: Graph, root: Room, maxDepth: nat)
    ensures Sound(g, root, [root], {}, []) && Spanned(g, root, [root], {}, [], 0, maxDepth)
    ensures Breadth(g, root, [root], [0], 0, []) && NearestFirst(g, root, [])
  {
    assert Below(g, root, root, 0);
    BreadthBegin(g, root);
  }

  /** The level of the head of the queue, as long as nothing was cut off. */
  lemma Raise(g: Graph, root: Room, queue: seq<Room>, depth: seq<nat>, level: nat, parents: set<Room>, rooms: seq<Room>,
              k: nat, maxDepth: nat) returns (level': nat)
    requires Breadth(g, root, queue, depth, level, rooms) && queue != []
    requires Spanned(g, root, queue, parents, rooms, k, maxDepth)
    ensures Breadth(g, root, queue, depth, level', rooms)
    ensures |depth| > 0 && (k == |rooms| ==> depth[0] == level')
  {
    level' := level;
    if k == |rooms| && depth[0] != level {
      NextLevel(g, root, queue, depth, level, parents, rooms, maxDepth);
      level' := level + 1;
    }
  }

  /** One turn at an accessible room, with its children queued or not. */
  lemma Visit(g: Graph, root: Room, queue: seq<Room>, depth: seq<nat>, level: nat, rooms: seq<Room>,
              kids: seq<Room>, expand: bool) returns (depth': seq<nat>)
    requires queue != [] && IsOpen(g, queue[0]) && Breadth(g, root, queue, depth, level, rooms)
    requires expand ==> depth[0] == level && forall y :: y in kids ==> y in g[queue[0]].children
    ensures NearestFirst(g, root, rooms + [queue[0]])
    ensures Breadth(g, root, if expand then queue[1..] + kids else queue[1..], depth', level, rooms + [queue[0]])
  {
    HeadDepth(g, root, queue, depth, level, rooms);
    hide Breadth, NearestFirst, Below;
    BreadthList(g, root, queue, depth, level, rooms);
    BreadthEnd(g, root, queue[1..], depth[1..], level, rooms + [queue[0]]);
    depth' := depth[1..];
    if expand {
      BreadthPush(g, root, queue[0], queue[1..], depth[1..], level, rooms + [queue[0]], kids);
      depth' := depth[1..] + seq(|kids|, _ => level + 1);
    }
  }

  lemma HeadDepth(g: Graph, root: Room, queue: seq<Room>, depth: seq<nat>, level: nat, rooms: seq<Room>)
    requires Breadth(g, root, queue, depth, level, rooms) && queue != []
    ensures |depth| == |queue| && Below(g, root, queue[0], depth[0])
  {
  }

  lemma Uncut(g: Graph, root: Room, queue: seq<Room>, parents: set<Room>, rooms: seq<Room>, k: nat, maxDepth: nat, x: Room)
    requires Spanned(g, root, queue, parents, rooms, k, maxDepth) && |parents + {x}| <= maxDepth
    ensures k == |rooms|
  {
    assert parents + {x} == parents + ({x} - parents);
  }

  lemma FewListed(g: Graph, root: Room, rooms: seq<Room>)
    requires forall x :: x in rooms ==> x in Under(g, root)
    ensures |Members(rooms)| <= |Under(g, root)|
  {
    SubsetSize(Members(rooms), Under(g, root));
  }

  lemma PopStale(g: Graph, queue: seq<Room>, parents: set<Room>)
    requires queue != []
    ensures Stale(queue, parents) == (if queue[0] in parents then 1 else 0) + Stale(queue[1..], parents)
    ensures parents <= OpenRooms(g) ==> (queue[0] in parents ==> IsOpen(g, queue[0]))
  {
  }

  lemma GrowParents(g: Graph, rest: seq<Room>, children: seq<Room>, parents: set<Room>, x: Room)
    requires parents <= OpenRooms(g) && IsOpen(g, x) && (forall k :: k in children ==> k !in parents)
    ensures parents + {x} <= OpenRooms(g)
    ensures x in parents ==> Stale(rest + children, parents) == Stale(rest, parents)
    ensures x in parents ==> parents + {x} == parents
    ensures x !in parents ==> OpenRooms(g) - (parents + {x}) < OpenRooms(g) - parents
  {
    StaleAppend(rest, children, parents);
    assert x in OpenRooms(g);
    assert x !in parents ==> x in OpenRooms(g) - parents;
  }

  lemma SoundRooms(g: Graph, root: Room, queue: seq<Room>, parents: set<Room>, rooms: seq<Room>)
    requires Sound(g, root, queue, parents, rooms)
    ensures forall x :: x in rooms ==> x in Under(g, root)
  {
  }
}
