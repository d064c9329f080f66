/** What the walk lists and in which order, compared with depth-first listings. */
module SpaceOrder {
  import opened Sequences
  import opened SpaceWalk

  lemma {:induction false} FirstPlace(rooms: seq<Room>, x: Room) returns (i: nat)
    requires x in rooms
    ensures i < |rooms| && rooms[i] == x && First(rooms, i)
  {
    i := 0;
    while rooms[i] != x
      invariant i < |rooms| && x !in rooms[..i]
      decreases |rooms| - i
    {
      assert rooms[..i + 1] == rooms[..i] + [rooms[i]];
      i := i + 1;
    }
  }

  /** The root comes first. */
  lemma RootFirst(g: Graph, root: Room, rooms: seq<Room>)
    requires Ordered(g, root, rooms) && root in rooms
    ensures rooms[0] == root
  {
    var j := FirstPlace(rooms, root);
    if j > 0 {
      assert Below(g, root, rooms[j], 0);
      assert Within(g, root, rooms[0], 0);
    }
  }

  /** Below the limit all accessible children of the root are listed, unless `maxDepth` is 0: then only the
      root is. */
  lemma FlatSpace(g: Graph, root: Room, rooms: seq<Room>, k: nat, maxDepth: nat)
    requires NearestFirst(g, root, rooms) && Complete(g, root, rooms, k, maxDepth) && IsOpen(g, root)
    ensures maxDepth > 0 ==> forall x :: IsOpen(g, x) && x in g[root].children ==> x in rooms
    ensures maxDepth == 0 ==> forall x :: x in rooms ==> x == root
  {
    assert root in rooms && |rooms[..k]| == k;
    RootFirst(g, root, rooms);
    if maxDepth > 0 {
      assert Members([]) == {} && rooms[..0] == [];
      assert k > 0;
      assert rooms[..k][0] == root;
      assert root in Members(rooms[..k]);
    } else {
      assert Members(rooms[..k]) == {};
    }
  }

  // ----------------------------------------------------------------------- depth-first

  /** What every depth-first order has: if a listed room leads to a later one, it leads to all the rooms
      between them. */
  ghost predicate DepthFirst(g: Graph, rooms: seq<Room>) {
    forall i, j, k :: 0 <= i < j < k < |rooms| && First(rooms, i) && First(rooms, j) && First(rooms, k) ==>
      Linked(g, rooms[i], rooms[k]) ==> Linked(g, rooms[i], rooms[j])
  }

  ghost predicate Distance(g: Graph, root: Room, x: Room, n: nat) {
    Below(g, root, x, n) && forall m: nat :: Below(g, root, x, m) ==> n <= m
  }

  /** `x`, at distance `n`, has an accessible child that is farther away. */
  ghost predicate Branches(g: Graph, root: Room, x: Room, n: nat) {
    IsOpen(g, x) && exists c :: c in g[x].children && IsOpen(g, c) && Distance(g, root, c, n + 1)
  }

  /** No room leads to another one at its own distance, as in every tree. */
  ghost predicate Graded(g: Graph, root: Room) {
    forall x, y, n: nat :: Distance(g, root, x, n) && Distance(g, root, y, n) && Linked(g, x, y) ==> x == y
  }

  /** Of the rooms at one distance only the one listed last has farther children. */
  ghost predicate OnlyLastBranches(g: Graph, root: Room, rooms: seq<Room>) {
    forall i, j, n: nat :: 0 <= i < j < |rooms| && First(rooms, i) && First(rooms, j) ==>
      Distance(g, root, rooms[i], n) && Distance(g, root, rooms[j], n) ==> !Branches(g, root, rooms[i], n)
  }

  lemma {:induction false} HasDistance(g: Graph, root: Room, x: Room, n: nat) returns (d: nat)
    requires Below(g, root, x, n)
    ensures d <= n && Distance(g, root, x, d)
    decreases n
  {
    if m: nat :| m < n && Below(g, root, x, m) {
      d := HasDistance(g, root, x, m);
    } else {
      d := n;
    }
  }

  /** Level by level: a room that is farther away than another listed room is listed behind it. */
  lemma FartherIsLater(g: Graph, root: Room, rooms: seq<Room>, j: nat, k: nat, n: nat, m: nat)
    requires Ordered(g, root, rooms) && j < |rooms| && k < |rooms| && First(rooms, j) && First(rooms, k)
    requires Distance(g, root, rooms[j], n) && Distance(g, root, rooms[k], m) && n < m
    ensures j < k
  {
    assert k < j ==> Within(g, root, rooms[k], n);
  }

  /** Two rooms at one distance, neither of which is reached from the other: if the one listed first has a
      farther child that is listed too, the listing is not depth-first. */
  lemma SplitSubtree(g: Graph, root: Room, rooms: seq<Room>, i: nat, j: nat, n: nat, c: Room)
    requires Ordered(g, root, rooms) && i < j < |rooms| && First(rooms, i) && First(rooms, j)
    requires Distance(g, root, rooms[i], n) && Distance(g, root, rooms[j], n) && !Linked(g, rooms[i], rooms[j])
    requires IsOpen(g, rooms[i]) && c in g[rooms[i]].children && c in rooms && Distance(g, root, c, n + 1)
    ensures !DepthFirst(g, rooms)
  {
    var k := FirstPlace(rooms, c);
    FartherIsLater(g, root, rooms, j, k, n, n + 1);
    assert Below(g, rooms[i], rooms[i], 0) && Below(g, rooms[i], c, 1);
    assert Linked(g, rooms[i], rooms[k]);
  }

  lemma {:induction false} Concat(g: Graph, root: Room, a: Room, x: Room, n: nat, m: nat)
    requires Below(g, root, a, n) && Below(g, a, x, m)
    ensures Below(g, root, x, n + m)
    decreases m
  {
    if m > 0 {
      var y :| IsOpen(g, y) && Below(g, a, y, m - 1) && x in g[y].children;
      Concat(g, root, a, y, n, m - 1);
    }
  }

  /** A walk from distance `n` to a farther room leaves that distance at a branching room. */
  lemma {:induction false} Crossing(g: Graph, root: Room, a: Room, x: Room, m: nat, n: nat, d: nat) returns (u: Room)
    requires Below(g, a, x, m) && Distance(g, root, a, n) && Distance(g, root, x, d) && n < d && IsOpen(g, x)
    ensures Linked(g, a, u) && Distance(g, root, u, n) && Branches(g, root, u, n)
    decreases m
  {
    assert m > 0;
    var y :| IsOpen(g, y) && Below(g, a, y, m - 1) && x in g[y].children;
    Concat(g, root, a, y, n, m - 1);
    var e := HasDistance(g, root, y, n + m - 1);
    assert Below(g, root, x, e + 1);
    if e > n {
      u := Crossing(g, root, a, y, m - 1, n, e);
    } else {
      u := y;
    }
  }

  /** Above a room at distance `d` there is a branching room at every smaller distance. */
  lemma {:induction false} Ancestor(g: Graph, root: Room, x: Room, d: nat, n: nat) returns (a: Room)
    requires Distance(g, root, x, d) && n < d && IsOpen(g, x)
    ensures Distance(g, root, a, n) && Branches(g, root, a, n) && Linked(g, a, x)
    decreases d
  {
    var y :| IsOpen(g, y) && Below(g, root, y, d - 1) && x in g[y].children;
    forall m: nat | Below(g, root, y, m)
      ensures d - 1 <= m
    {
      assert Below(g, root, x, m + 1);
    }
    if n == d - 1 {
      a := y;
      assert Below(g, a, a, 0);
    } else {
      a := Ancestor(g, root, y, d - 1, n);
    }
    LinkChild(g, a, y, x);
  }

  /** All accessible rooms under the root are listed, and no others. */
  ghost predicate ListsAll(g: Graph, root: Room, rooms: seq<Room>) {
    forall x :: x in rooms <==> x in Under(g, root)
  }

  lemma Listed(g: Graph, root: Room, rooms: seq<Room>, x: Room, n: nat) returns (i: nat)
    requires ListsAll(g, root, rooms) && IsOpen(g, x) && Below(g, root, x, n)
    ensures i < |rooms| && rooms[i] == x && First(rooms, i)
  {
    assert Linked(g, root, x);
    i := FirstPlace(rooms, x);
  }

  lemma ListedDistance(g: Graph, root: Room, rooms: seq<Room>, i: nat) returns (n: nat)
    requires ListsAll(g, root, rooms) && i < |rooms|
    ensures IsOpen(g, rooms[i]) && Distance(g, root, rooms[i], n)
  {
    assert rooms[i] in Under(g, root);
    var m: nat :| Below(g, root, rooms[i], m);
    n := HasDistance(g, root, rooms[i], m);
  }

  lemma BranchSplits(g: Graph, root: Room, rooms: seq<Room>, i: nat, j: nat, n: nat)
    requires Ordered(g, root, rooms) && ListsAll(g, root, rooms) && Graded(g, root) && DepthFirst(g, rooms)
    requires i < j < |rooms| && First(rooms, i) && First(rooms, j)
    requires Distance(g, root, rooms[i], n) && Distance(g, root, rooms[j], n)
    ensures !Branches(g, root, rooms[i], n)
  {
    assert !Linked(g, rooms[i], rooms[j]) by {
      assert rooms[i] in rooms[..j];
    }
    if Branches(g, root, rooms[i], n) {
      var c :| c in g[rooms[i]].children && IsOpen(g, c) && Distance(g, root, c, n + 1);
      var k := Listed(g, root, rooms, c, n + 1);
      SplitSubtree(g, root, rooms, i, j, n, c);
    }
  }

  /** Of two listed rooms the first one is not farther, and with graded distances it is nearer if it leads
      to the other. */
  lemma EarlierIsNearer(g: Graph, root: Room, rooms: seq<Room>, i: nat, j: nat, n: nat, e: nat)
    requires Ordered(g, root, rooms) && Graded(g, root) && i < j < |rooms| && First(rooms, i) && First(rooms, j)
    requires Distance(g, root, rooms[i], n) && Distance(g, root, rooms[j], e)
    ensures n <= e && (Linked(g, rooms[i], rooms[j]) ==> n < e)
  {
    if e < n {
      FartherIsLater(g, root, rooms, j, i, e, n);
    }
    assert rooms[i] in rooms[..j];
  }

  /** With graded distances a room that leads to a farther one branches itself. */
  lemma LeadsByBranching(g: Graph, root: Room, a: Room, x: Room, n: nat, d: nat)
    requires Graded(g, root) && Distance(g, root, a, n) && Distance(g, root, x, d) && n < d && IsOpen(g, x)
    requires Linked(g, a, x)
    ensures Branches(g, root, a, n)
  {
    var m: nat :| Below(g, a, x, m);
    var u := Crossing(g, root, a, x, m, n, d);
  }

  lemma BetweenIsLinked(g: Graph, root: Room, rooms: seq<Room>, i: nat, j: nat, k: nat)
    requires Ordered(g, root, rooms) && ListsAll(g, root, rooms) && Graded(g, root) && OnlyLastBranches(g, root, rooms)
    requires i < j < k < |rooms| && First(rooms, i) && First(rooms, j) && First(rooms, k)
    requires Linked(g, rooms[i], rooms[k])
    ensures Linked(g, rooms[i], rooms[j])
  {
    hide Below, Linked, Ordered, Graded;
    var n := ListedDistance(g, root, rooms, i);
    var e := ListedDistance(g, root, rooms, j);
    var d := ListedDistance(g, root, rooms, k);
    EarlierIsNearer(g, root, rooms, i, k, n, d);
    LeadsByBranching(g, root, rooms[i], rooms[k], n, d);
    EarlierIsNearer(g, root, rooms, i, j, n, e);
    var a := Ancestor(g, root, rooms[j], e, n);
    var i' := Listed(g, root, rooms, a, n);
    assert i' == i;
  }

  /** On a graph with graded distances a complete listing is depth-first if and only if of the rooms at one
      distance only the one listed last has farther children. */
  lemma DepthFirstExactly(g: Graph, root: Room, rooms: seq<Room>)
    requires NearestFirst(g, root, rooms) && ListsAll(g, root, rooms) && Graded(g, root)
    ensures DepthFirst(g, rooms) <==> OnlyLastBranches(g, root, rooms)
  {
    hide Ordered, Graded, Distance, Branches, ListsAll, First, Linked;
    if DepthFirst(g, rooms) {
      forall i, j, n: nat | 0 <= i < j < |rooms| && First(rooms, i) && First(rooms, j)
                            && Distance(g, root, rooms[i], n) && Distance(g, root, rooms[j], n)
        ensures !Branches(g, root, rooms[i], n)
      {
        BranchSplits(g, root, rooms, i, j, n);
      }
    }
    if OnlyLastBranches(g, root, rooms) {
      forall i, j, k | 0 <= i < j < k < |rooms| && First(rooms, i) && First(rooms, j) && First(rooms, k)
                       && Linked(g, rooms[i], rooms[k])
        ensures Linked(g, rooms[i], rooms[j])
      {
        BetweenIsLinked(g, root, rooms, i, j, k);
      }
    }
  }

  // ----------------------------------------------------------- an order that is not depth-first

  /** One turn at an accessible room, without a token and below the cut-offs. */
  lemma Turn(g: Graph, root: Room, q: Query, x: Room, rest: seq<Room>, parents: set<Room>, rooms: seq<Room>)
    requires parents <= OpenRooms(g) && IsOpen(g, x) && q.shortIds == []
    requires |rooms| + 1 < q.limit && |parents + {x}| <= q.maxDepth
    ensures parents + {x} <= OpenRooms(g)
    ensures Walk(g, root, q, [x] + rest, parents, rooms)
         == Walk(g, root, q, rest + Reverse(NotIn(g[x].children, parents)), parents + {x}, rooms + [x])
  {
    assert ([x] + rest)[1..] == rest;
    GrowParents(g, rest, Kids(g, q, x, parents), parents, x);
  }

  /** A root with children `a` and `b`, and a child `c` of `b`. */
  predicate Fork(g: Graph, root: Room, a: Room, b: Room, c: Room) {
    && root != a && root != b && root != c && a != b && a != c && b != c
    && root in g && g[root] == Accessible([a, b])
    && a in g && g[a] == Accessible([])
    && b in g && g[b] == Accessible([c])
    && c in g && g[c] == Accessible([])
  }

  /** From `b` a walk in a fork gets to `b` and `c` only. */
  lemma {:induction false} FromB(g: Graph, root: Room, a: Room, b: Room, c: Room, x: Room, n: nat)
    requires Fork(g, root, a, b, c) && Below(g, b, x, n)
    ensures x == b || x == c
    decreases n
  {
    if n > 0 {
      var y :| IsOpen(g, y) && Below(g, b, y, n - 1) && x in g[y].children;
      FromB(g, root, a, b, c, y, n - 1);
    }
  }

  /** For example on every fork: the listing is root, `b`, `a`, `c`, and `a` comes between `b` and its child. */
  lemma NotDepthFirst(g: Graph, root: Room, a: Room, b: Room, c: Room, q: Query)
    requires Fork(g, root, a, b, c) && q.shortIds == [] && q.limit > 4 && q.maxDepth >= 4
    ensures Walk(g, root, q, [root], {}, []) == Rooms([root, b, a, c]) && !DepthFirst(g, [root, b, a, c])
  {
    ForkTop(g, root, a, b, c, q);
    ForkRest(g, root, a, b, c, q);
    ForkSplits(g, root, a, b, c);
  }

  lemma ForkSplits(g: Graph, root: Room, a: Room, b: Room, c: Room)
    requires Fork(g, root, a, b, c)
    ensures !DepthFirst(g, [root, b, a, c])
  {
    var rooms := [root, b, a, c];
    assert rooms[..1] == [root] && rooms[..2] == [root, b] && rooms[..3] == [root, b, a];
    assert Below(g, b, b, 0) && Below(g, b, c, 1);
    assert Linked(g, rooms[1], rooms[3]);
    forall n: nat
      ensures !Below(g, b, a, n)
    {
      if Below(g, b, a, n) {
        FromB(g, root, a, b, c, a, n);
      }
    }
    assert !Linked(g, rooms[1], rooms[2]);
  }

  lemma ForkTop(g: Graph, root: Room, a: Room, b: Room, c: Room, q: Query)
    requires Fork(g, root, a, b, c) && q.shortIds == [] && q.limit > 4 && q.maxDepth >= 4
    ensures {root, b} <= OpenRooms(g)
    ensures Walk(g, root, q, [root], {}, []) == Walk(g, root, q, [a, c], {root, b}, [root, b])
  {
    hide Walk, NotIn, Reverse;
    Turn(g, root, q, root, [], {}, []);
    assert Reverse(NotIn([a, b], {})) == [b, a] by { Pick([a, b], {}); }
    assert [root] + [] == [root] && [] + [b, a] == [b, a] && [] + [root] == [root] && {} + {root} == {root};
    Turn(g, root, q, b, [a], {root}, [root]);
    assert Reverse(NotIn([c], {root})) == [c] by { Pick([c], {root}); }
    assert [b] + [a] == [b, a] && [a] + [c] == [a, c] && [root] + [b] == [root, b] && {root} + {b} == {root, b};
  }

  lemma ForkRest(g: Graph, root: Room, a: Room, b: Room, c: Room, q: Query)
    requires Fork(g, root, a, b, c) && q.shortIds == [] && q.limit > 4 && q.maxDepth >= 4
    requires {root, b} <= OpenRooms(g)
    ensures Walk(g, root, q, [a, c], {root, b}, [root, b]) == Rooms([root, b, a, c])
  {
    hide Walk, NotIn, Reverse;
    var two, three := {root, b}, {root, b, a};
    Turn(g, root, q, a, [c], two, [root, b]);
    assert Reverse(NotIn([], two)) == [] by { Pick([], two); }
    assert [a] + [c] == [a, c] && [c] + [] == [c] && [root, b] + [a] == [root, b, a] && two + {a} == three;
    Turn(g, root, q, c, [], three, [root, b, a]);
    assert Reverse(NotIn([], three)) == [] by { Pick([], three); }
    assert [c] + [] == [c] && [root, b, a] + [c] == [root, b, a, c];
    var none: seq<Room> := [];
    assert none + none == none;
    Over(g, root, q, three + {c}, [root, b, a, c]);
  }

  /** Without expanded children, all of them are chosen. */
  lemma {:induction false} Pick(xs: seq<Room>, parents: set<Room>)
    requires forall x :: x in xs ==> x !in parents
    ensures NotIn(xs, parents) == xs
  {
    if xs != [] {
      Pick(xs[1..], parents);
    }
  }

  lemma Over(g: Graph, root: Room, q: Query, parents: set<Room>, rooms: seq<Room>)
    requires parents <= OpenRooms(g)
    ensures Walk(g, root, q, [], parents, rooms) == Rooms(rooms)
  {
  }
}
