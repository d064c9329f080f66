/** What a pagination token of any length leaves out of the listing, and what it keeps. */
module SpaceToken {
  import opened Sequences
  import opened SpaceWalk
  import opened SpaceTour

  // ----------------------------------------------------------- the tour is determined

  lemma {:induction false} OffersShared(g: Graph, root: Room, q: Query, a: seq<Room>, b: seq<Room>, k: nat)
    requires k <= |a| && k <= |b| && a[..k] == b[..k]
    ensures Offers(g, root, q, a, k) == Offers(g, root, q, b, k)
    decreases k
  {
    hide Offer;
    if k > 0 {
      assert a[..k - 1] == a[..k][..k - 1] && b[..k - 1] == b[..k][..k - 1];
      OffersShared(g, root, q, a, b, k - 1);
      OfferLocal(g, q, a, b, k - 1);
    }
  }

  /** Two tours with the same first `j` visits have the same cut-off up to there. */
  lemma SameCut(a: seq<Room>, b: seq<Room>, j: nat, k: nat, l: nat, maxDepth: nat)
    requires CutAt(a, k, maxDepth) && CutAt(b, l, maxDepth) && j <= |a| && j <= |b| && a[..j] == b[..j]
    ensures Least(j, k) == Least(j, l)
  {
    forall i | 0 <= i <= j
      ensures Seen(a, i) == Seen(b, i)
    {
      assert a[..i] == a[..j][..i] && b[..i] == b[..j][..i];
    }
  }

  lemma {:induction false} SameVisits(g: Graph, root: Room, q: Query, a: seq<Room>, k: nat, b: seq<Room>, l: nat, j: nat)
    requires Tour(g, root, q, a, k) && Tour(g, root, q, b, l) && j <= |a| && j <= |b|
    ensures a[..j] == b[..j]
    decreases j
  {
    if j > 0 {
      var i := j - 1;
      SameVisits(g, root, q, a, k, b, l, i);
      SameCut(a, b, i, k, l, q.maxDepth);
      var c := Least(i, k);
      assert a[..c] == a[..i][..c] && b[..c] == b[..i][..c];
      OffersShared(g, root, q, a, b, c);
      hide Offers, OpenOnly, CutAt;
      assert a[..i + 1] <= OpenOnly(g, Offers(g, root, q, a, c)) && b[..i + 1] <= OpenOnly(g, Offers(g, root, q, b, c));
    }
  }

  /** Graph and query determine the tour, hence the listing and its order. */
  lemma TourUnique(g: Graph, root: Room, q: Query, a: seq<Room>, k: nat, b: seq<Room>, l: nat)
    requires Tour(g, root, q, a, k) && Tour(g, root, q, b, l) && k <= |a| && l <= |b|
    requires Whole(g, root, q, a, k) && |a| <= |b|
    ensures a == b && k == l
  {
    var n := |a|;
    SameVisits(g, root, q, a, k, b, l, n);
    SameCut(a, b, n, k, l, q.maxDepth);
    assert a[..n] == a;
    if n < |b| {
      var c := Least(n, l);
      assert a[..c] == b[..n][..c] == b[..c];
      OffersShared(g, root, q, a, b, c);
    } else {
      assert b[..n] == b;
    }
  }

  // ------------------------------------------------------------------- what is selected

  /** `x` stands in `xs` at or behind a place where the skipping ends. */
  predicate AtOrBehind(xs: seq<Room>, short: map<Room, nat>, w: nat, x: Room) {
    exists n, i :: 0 <= n <= i < |xs| && xs[i] == x && Stops(short, w, xs[n])
  }

  /** Visit `j` selects its child `x`: it was not visited before, and as long as fewer distinct rooms were visited
      than the token is long it is not in front of the child the token names. */
  ghost predicate Selected(g: Graph, q: Query, visits: seq<Room>, j: nat, x: Room)
    requires j < |visits|
  {
    var xs := NotIn(Children(g, visits[j]), Members(visits[..j]));
    x in xs && (Seen(visits, j) < |q.shortIds| ==> AtOrBehind(xs, q.short, q.shortIds[Seen(visits, j)], x))
  }

  lemma StopSuffix(xs: seq<Room>, short: map<Room, nat>, w: nat, x: Room)
    ensures x in xs[FirstStop(xs, short, w)..] <==> AtOrBehind(xs, short, w, x)
  {
    var f := FirstStop(xs, short, w);
    if x in xs[f..] {
      var i :| 0 <= i < |xs[f..]| && xs[f..][i] == x;
      assert xs[f + i] == x && Stops(short, w, xs[f]);
    }
    if AtOrBehind(xs, short, w, x) {
      var n, i :| 0 <= n <= i < |xs| && xs[i] == x && Stops(short, w, xs[n]);
      assert f <= n;
      assert xs[f..][i - f] == x;
    }
  }

  lemma OfferExactly(g: Graph, q: Query, visits: seq<Room>, j: nat, x: Room)
    requires j < |visits|
    ensures x in Offer(g, q, visits, j) <==> Selected(g, q, visits, j, x)
  {
    var xs := NotIn(Children(g, visits[j]), Members(visits[..j]));
    if Seen(visits, j) < |q.shortIds| {
      var w := q.shortIds[Seen(visits, j)];
      StopSuffix(xs, q.short, w, x);
      ReverseMembers(xs[FirstStop(xs, q.short, w)..]);
    } else {
      ReverseMembers(xs);
    }
  }

  /** What is offered besides the root. */
  ghost function Later(g: Graph, q: Query, visits: seq<Room>, k: nat): seq<Room>
    requires k <= |visits|
  {
    if k == 0 then [] else Later(g, q, visits, k - 1) + Offer(g, q, visits, k - 1)
  }

  lemma {:induction false} OffersLater(g: Graph, root: Room, q: Query, visits: seq<Room>, k: nat)
    requires k <= |visits|
    ensures Offers(g, root, q, visits, k) == [root] + Later(g, q, visits, k)
    decreases k
  {
    if k > 0 {
      OffersLater(g, root, q, visits, k - 1);
    }
  }

  lemma {:induction false} LaterExactly(g: Graph, q: Query, visits: seq<Room>, k: nat, x: Room)
    requires k <= |visits|
    ensures x in Later(g, q, visits, k) <==> exists j :: 0 <= j < k && Selected(g, q, visits, j, x)
    decreases k
  {
    hide Selected, Offer;
    if k > 0 {
      LaterExactly(g, q, visits, k - 1, x);
      OfferExactly(g, q, visits, k - 1, x);
    }
  }

  // -------------------------------------------------------------- tokens of any length

  /** Every visit but the first was selected by an earlier one, in front of the cut-off. */
  lemma VisitSelected(g: Graph, root: Room, q: Query, visits: seq<Room>, k: nat, i: nat) returns (j: nat)
    requires Tour(g, root, q, visits, k) && 0 < i < |visits| && IsOpen(g, root)
    ensures j < i && j < k && Selected(g, q, visits, j, visits[i]) && IsOpen(g, visits[i])
  {
    var c := Least(i, k);
    var later := Later(g, q, visits, c);
    OffersLater(g, root, q, visits, c);
    OpenConcat(g, [root], later);
    OpenOne(g, root);
    assert visits[..i + 1] <= [root] + OpenOnly(g, later);
    assert visits[i] == visits[..i + 1][i] == ([root] + OpenOnly(g, later))[i] == OpenOnly(g, later)[i - 1];
    LaterExactly(g, q, visits, c, visits[i]);
    j :| 0 <= j < c && Selected(g, q, visits, j, visits[i]);
  }

  /** A whole tour visits exactly the accessible rooms that are the root or are selected by a visit in front of the
      cut-off. */
  lemma VisitedExactly(g: Graph, root: Room, q: Query, visits: seq<Room>, k: nat, x: Room)
    requires k <= |visits| && Whole(g, root, q, visits, k)
    ensures x in visits <==> IsOpen(g, x) && (x == root || exists j :: 0 <= j < k && Selected(g, q, visits, j, x))
  {
    OffersLater(g, root, q, visits, k);
    LaterExactly(g, q, visits, k, x);
  }

  /** How often `x` stands in `xs`. */
  function Count(xs: seq<Room>, x: Room): nat {
    if xs == [] then 0 else (if xs[0] == x then 1 else 0) + Count(xs[1..], x)
  }

  lemma {:induction false} CountConcat(a: seq<Room>, b: seq<Room>, x: Room)
    ensures Count(a + b, x) == Count(a, x) + Count(b, x)
  {
    if a == [] {
      Neutral(b);
    } else {
      assert (a + b)[1..] == a[1..] + b;
      CountConcat(a[1..], b, x);
    }
  }

  lemma {:induction false} CountMember(xs: seq<Room>, x: Room)
    ensures Count(xs, x) > 0 <==> x in xs
  {
    if xs != [] {
      CountMember(xs[1..], x);
    }
  }

  lemma {:induction false} OpenCount(g: Graph, xs: seq<Room>, x: Room)
    ensures Count(OpenOnly(g, xs), x) <= Count(xs, x)
  {
    if xs != [] {
      OpenCount(g, xs[1..], x);
      Uncons(xs);
      OpenCons(g, xs[0], xs[1..]);
      hide OpenOnly;
      CountConcat(if IsOpen(g, xs[0]) then [xs[0]] else [], OpenOnly(g, xs[1..]), x);
    }
  }

  /** A room that is visited while the token is replayed, and is offered once only, is not listed. */
  lemma ReplayedNotListed(g: Graph, root: Room, q: Query, visits: seq<Room>, k: nat, m: nat, rooms: seq<Room>, x: Room)
    requires k <= |visits| && Shows(visits, m, |q.shortIds|, rooms)
    ensures Whole(g, root, q, visits, k) && x in visits[..m] && Count(Offers(g, root, q, visits, k), x) == 1 ==> x !in rooms
  {
    OpenCount(g, Offers(g, root, q, visits, k), x);
    assert visits == visits[..m] + rooms;
    CountConcat(visits[..m], rooms, x);
    CountMember(visits[..m], x);
    CountMember(rooms, x);
  }

  /** Below the limit exactly those visited rooms are listed that were not only visited while the token was replayed;
      in particular every selected accessible room that was not visited then. */
  lemma TokenListing(g: Graph, root: Room, q: Query, rooms: seq<Room>) returns (visits: seq<Room>, k: nat, m: nat)
    requires IsOpen(g, root) && Walk(g, root, q, [root], {}, []) == Rooms(rooms) && |rooms| < q.limit
    ensures Tour(g, root, q, visits, k) && k <= |visits| && Shows(visits, m, |q.shortIds|, rooms)
    ensures forall x :: x !in visits[..m] ==>
              (x in rooms <==> IsOpen(g, x) && (x == root || exists j :: 0 <= j < k && Selected(g, q, visits, j, x)))
    ensures forall x :: x in visits[..m] && Count(Offers(g, root, q, visits, k), x) == 1 ==> x !in rooms
  {
    hide Walk, Tour, Selected, Offers;
    visits, k, m := HierarchyIsTour(g, root, q);
    assert visits == visits[..m] + rooms;
    forall x | x !in visits[..m]
      ensures x in rooms <==> IsOpen(g, x) && (x == root || exists j :: 0 <= j < k && Selected(g, q, visits, j, x))
    {
      VisitedExactly(g, root, q, visits, k, x);
    }
    forall x | x in visits[..m] && Count(Offers(g, root, q, visits, k), x) == 1
      ensures x !in rooms
    {
      ReplayedNotListed(g, root, q, visits, k, m, rooms, x);
    }
  }

  // ---------------------------------------------------------------- tokens of length one

  /** `c` is a child of the root at or behind the one that the token names. */
  ghost predicate Behind(g: Graph, root: Room, q: Query, w: nat, c: Room) {
    IsOpen(g, root) && AtOrBehind(g[root].children, q.short, w, c)
  }

  lemma {:induction false} NoneIn(xs: seq<Room>)
    ensures NotIn(xs, {}) == xs
  {
    if xs != [] {
      NoneIn(xs[1..]);
    }
  }

  lemma RootSelects(g: Graph, root: Room, q: Query, w: nat, visits: seq<Room>, x: Room)
    requires q.shortIds == [w] && visits != [] && visits[0] == root && IsOpen(g, root)
    ensures Selected(g, q, visits, 0, x) <==> Behind(g, root, q, w, x)
  {
    assert visits[..0] == [] && Members([]) == {};
    NoneIn(g[root].children);
    assert Seen(visits, 0) == 0;
  }

  lemma FirstIsRoot(g: Graph, root: Room, q: Query, visits: seq<Room>, k: nat)
    requires Tour(g, root, q, visits, k) && visits != []
    ensures visits[0] == root && IsOpen(g, root) && Seen(visits, 0) == 0 && Seen(visits, 1) == 1
  {
    OpenOne(g, root);
    assert visits[..0 + 1] <= OpenOnly(g, Offers(g, root, q, visits, Least(0, k)));
    assert visits[0] == visits[..1][0];
    assert visits[..1] == [root] && Members([root]) == {root} && visits[..0] == [] && Members([]) == {};
  }

  lemma {:induction false} BehindLeads(g: Graph, root: Room, q: Query, w: nat, visits: seq<Room>, k: nat, i: nat) returns (c: Room)
    requires Tour(g, root, q, visits, k) && q.shortIds == [w] && 0 < i < |visits|
    ensures IsOpen(g, c) && Behind(g, root, q, w, c) && Linked(g, c, visits[i]) && IsOpen(g, visits[i])
    decreases i
  {
    FirstIsRoot(g, root, q, visits, k);
    var j := VisitSelected(g, root, q, visits, k, i);
    if j == 0 {
      RootSelects(g, root, q, w, visits, visits[i]);
      c := visits[i];
      assert Below(g, c, c, 0);
    } else {
      c := BehindLeads(g, root, q, w, visits, k, j);
      assert visits[i] in g[visits[j]].children;
      LinkChild(g, c, visits[j], visits[i]);
    }
  }

  /** With a token of one short id every listed room is one of the accessible children of the root at or behind the
      one that the token names, or below one of them; and below the cut-offs all of these children are listed. */
  lemma TokenOfOne(g: Graph, root: Room, q: Query, w: nat, rooms: seq<Room>)
    requires q.shortIds == [w] && Walk(g, root, q, [root], {}, []) == Rooms(rooms)
    ensures forall x :: x in rooms ==> exists c :: IsOpen(g, c) && Behind(g, root, q, w, c) && Linked(g, c, x)
    ensures q.maxDepth > 0 && |rooms| < q.limit ==>
              forall c :: IsOpen(g, c) && Behind(g, root, q, w, c) && c != root ==> c in rooms
  {
    hide Walk;
    var visits, k, m := HierarchyIsTour(g, root, q);
    hide Tour, Offers, OpenOnly, AtOrBehind, Linked;
    if visits != [] {
      FirstIsRoot(g, root, q, visits, k);
      assert m == 1;
      forall x | x in rooms
        ensures exists c :: IsOpen(g, c) && Behind(g, root, q, w, c) && Linked(g, c, x)
      {
        var i :| 0 <= i < |rooms| && rooms[i] == x;
        var c := BehindLeads(g, root, q, w, visits, k, i + 1);
      }
    }
    if q.maxDepth > 0 && |rooms| < q.limit {
      forall c | IsOpen(g, c) && Behind(g, root, q, w, c) && c != root
        ensures c in rooms
      {
        RootVisited(g, root, q, visits, k);
        TourCut(g, root, q, visits, k);
        RootSelects(g, root, q, w, visits, c);
        assert 0 < k && Selected(g, q, visits, 0, c);
        VisitedExactly(g, root, q, visits, k, c);
        assert visits == [root] + rooms;
      }
    }
  }

  lemma RootVisited(g: Graph, root: Room, q: Query, visits: seq<Room>, k: nat)
    requires k <= |visits| && Whole(g, root, q, visits, k) && IsOpen(g, root)
    ensures visits != []
  {
    VisitedExactly(g, root, q, visits, k, root);
  }
}
