/** The listing as a whole, without the queue: which rooms the walk visits and in which order, what a pagination
    token skips, and which visited rooms are listed. */
module SpaceTour {
  import opened Sequences
  import opened SpaceWalk

  // --------------------------------------------------------------- what a visit offers

  /** A child that ends the skipping: the one the token names, or one without a short id. */
  predicate Stops(short: map<Room, nat>, w: nat, x: Room) {
    x !in short || short[x] == w
  }

  /** The first place at which the skipping ends. */
  function FirstStop(xs: seq<Room>, short: map<Room, nat>, w: nat): (n: nat)
    ensures n <= |xs| && (forall i :: 0 <= i < n ==> !Stops(short, w, xs[i])) && (n < |xs| ==> Stops(short, w, xs[n]))
  {
    if xs == [] || Stops(short, w, xs[0]) then 0 else 1 + FirstStop(xs[1..], short, w)
  }

  /** The token skips the children in front of the first one at which the skipping ends, and no others. */
  lemma {:induction false} SkipsExactly(xs: seq<Room>, short: map<Room, nat>, w: nat, n: nat)
    requires n <= |xs| && (forall i :: 0 <= i < n ==> xs[i] in short && short[xs[i]] != w)
    requires n < |xs| ==> xs[n] !in short || short[xs[n]] == w
    ensures SkipTo(xs, short, [w]) == xs[n..]
  {
    if n > 0 {
      assert xs[0] in short && [short[xs[0]]] != [w] by {
        assert [short[xs[0]]][0] != [w][0];
      }
      SkipsExactly(xs[1..], short, w, n - 1);
    }
  }

  lemma NotInNone(seen: set<Room>)
    ensures NotIn([], seen) == []
  {
  }

  lemma NotInCons(x: Room, rest: seq<Room>, seen: set<Room>)
    ensures NotIn([x] + rest, seen) == (if x in seen then [] else [x]) + NotIn(rest, seen)
  {
    assert ([x] + rest)[1..] == rest;
  }

  /** Leaving out the rooms seen before keeps the order of the others. */
  lemma {:induction false} NotInConcat(a: seq<Room>, b: seq<Room>, seen: set<Room>)
    ensures NotIn(a + b, seen) == NotIn(a, seen) + NotIn(b, seen)
  {
    hide NotIn;
    if a == [] {
      Neutral(b);
      Neutral(NotIn(b, seen));
      NotInNone(seen);
    } else {
      var (x, rest) := (a[0], a[1..]);
      Uncons(a);
      Assoc([x], rest, b);
      NotInCons(x, rest, seen);
      NotInCons(x, rest + b, seen);
      NotInConcat(rest, b, seen);
      Assoc(if x in seen then [] else [x], NotIn(rest, seen), NotIn(b, seen));
    }
  }

  ghost function Children(g: Graph, x: Room): seq<Room> {
    if IsOpen(g, x) then g[x].children else []
  }

  /** The rooms that visit `j` adds to the queue: the children not visited before, from the place that the token
      says as long as it is not used up, last child first. */
  ghost function Offer(g: Graph, q: Query, visits: seq<Room>, j: nat): seq<Room>
    requires j < |visits|
  {
    var seen := Members(visits[..j]);
    var xs := NotIn(Children(g, visits[j]), seen);
    Reverse(if |seen| >= |q.shortIds| then xs else xs[FirstStop(xs, q.short, q.shortIds[|seen|])..])
  }

  /** Everything that the root and the first `k` visits add to the queue. */
  ghost function Offers(g: Graph, root: Room, q: Query, visits: seq<Room>, k: nat): seq<Room>
    requires k <= |visits|
  {
    if k == 0 then [root] else Offers(g, root, q, visits, k - 1) + Offer(g, q, visits, k - 1)
  }

  function OpenOnly(g: Graph, xs: seq<Room>): (r: seq<Room>)
    ensures forall x :: x in r <==> x in xs && IsOpen(g, x)
  {
    if xs == [] then [] else (if IsOpen(g, xs[0]) then [xs[0]] else []) + OpenOnly(g, xs[1..])
  }

  // ------------------------------------------------------------------------- the tour

  /** The number of distinct rooms among the first `j` visits. */
  ghost function Seen(visits: seq<Room>, j: nat): nat
    requires j <= |visits|
  {
    |Members(visits[..j])|
  }

  /** Place `k` is the first visit with more than `maxDepth` distinct rooms, if there is one. */
  ghost predicate CutAt(visits: seq<Room>, k: nat, maxDepth: nat) {
    && k <= |visits|
    && (forall j :: 1 <= j <= k ==> Seen(visits, j) <= maxDepth)
    && (k < |visits| ==> Seen(visits, k + 1) > maxDepth)
  }

  function Least(j: nat, k: nat): nat {
    if j < k then j else k
  }

  /** Every visit is the next accessible room of what the visits before it, up to the cut-off, have offered. */
  ghost predicate Causal(g: Graph, root: Room, q: Query, visits: seq<Room>, k: nat)
    requires k <= |visits|
  {
    forall j :: 0 <= j < |visits| ==> visits[..j + 1] <= OpenOnly(g, Offers(g, root, q, visits, Least(j, k)))
  }

  ghost predicate Tour(g: Graph, root: Room, q: Query, visits: seq<Room>, k: nat) {
    CutAt(visits, k, q.maxDepth) && Causal(g, root, q, visits, k)
  }

  /** Nothing offered is left. */
  ghost predicate Whole(g: Graph, root: Room, q: Query, visits: seq<Room>, k: nat)
    requires k <= |visits|
  {
    visits == OpenOnly(g, Offers(g, root, q, visits, k))
  }

  /** The visits are listed from place `m` on, where as many distinct rooms were visited as the token is long. */
  ghost predicate Shows(visits: seq<Room>, m: nat, token: nat, rooms: seq<Room>) {
    && m <= |visits| && rooms == visits[m..]
    && (forall j :: 0 <= j < m ==> Seen(visits, j) < token)
    && (m < |visits| ==> Seen(visits, m) >= token)
  }

  // ------------------------------------------------------------------------ the ledger

  lemma OpenNone(g: Graph)
    ensures OpenOnly(g, []) == []
  {
  }

  lemma OpenCons(g: Graph, x: Room, rest: seq<Room>)
    ensures OpenOnly(g, [x] + rest) == (if IsOpen(g, x) then [x] else []) + OpenOnly(g, rest)
  {
    assert ([x] + rest)[1..] == rest;
  }

  lemma {:induction false} OpenConcat(g: Graph, a: seq<Room>, b: seq<Room>)
    ensures OpenOnly(g, a + b) == OpenOnly(g, a) + OpenOnly(g, b)
  {
    hide OpenOnly;
    if a == [] {
      Neutral(b);
      Neutral(OpenOnly(g, b));
      OpenNone(g);
    } else {
      var (x, rest) := (a[0], a[1..]);
      Uncons(a);
      Assoc([x], rest, b);
      OpenCons(g, x, rest);
      OpenCons(g, x, rest + b);
      OpenConcat(g, rest, b);
      Assoc(if IsOpen(g, x) then [x] else [], OpenOnly(g, rest), OpenOnly(g, b));
    }
  }

  lemma OpenOne(g: Graph, x: Room)
    ensures OpenOnly(g, [x]) == if IsOpen(g, x) then [x] else []
  {
    assert [x][1..] == [];
  }

  /** What the first visits offer does not depend on the later ones. */
  lemma {:induction false} OffersLocal(g: Graph, root: Room, q: Query, visits: seq<Room>, x: Room, k: nat)
    requires k <= |visits|
    ensures Offers(g, root, q, visits + [x], k) == Offers(g, root, q, visits, k)
    decreases k
  {
    hide Offer;
    if k > 0 {
      OffersLocal(g, root, q, visits, x, k - 1);
      OfferLocal(g, q, visits, visits + [x], k - 1);
    }
  }

  lemma OfferLocal(g: Graph, q: Query, a: seq<Room>, b: seq<Room>, j: nat)
    requires j < |a| && j < |b| && a[..j + 1] == b[..j + 1]
    ensures Offer(g, q, a, j) == Offer(g, q, b, j)
  {
    assert a[..j] == a[..j + 1][..j] && b[..j] == b[..j + 1][..j] && a[j] == a[..j + 1][j] && b[j] == b[..j + 1][j];
  }

  lemma KidsAreOffer(g: Graph, q: Query, visits: seq<Room>, x: Room)
    requires IsOpen(g, x)
    ensures Offer(g, q, visits + [x], |visits|) == Kids(g, q, x, Members(visits))
  {
    var seen := Members(visits);
    assert (visits + [x])[..|visits|] == visits;
    if |seen| < |q.shortIds| {
      var xs := NotIn(g[x].children, seen);
      var w := q.shortIds[|seen|];
      SkipsExactly(xs, q.short, w, FirstStop(xs, q.short, w));
    }
  }

  lemma MembersGrow(visits: seq<Room>, i: nat, j: nat)
    requires i <= j <= |visits|
    ensures Seen(visits, i) <= Seen(visits, j)
  {
    assert visits[..i] == visits[..j][..i];
    SubsetSize(Members(visits[..i]), Members(visits[..j]));
  }

  /** The queue entries up to now are what was offered; those taken from it are the visits and closed rooms. */
  ghost predicate Ledger(g: Graph, root: Room, q: Query, queue: seq<Room>, taken: seq<Room>, visits: seq<Room>, k: nat)
    requires k <= |visits|
  {
    taken + queue == Offers(g, root, q, visits, k) && OpenOnly(g, taken) == visits
  }

  ghost predicate Touring(g: Graph, root: Room, q: Query, queue: seq<Room>, parents: set<Room>, rooms: seq<Room>,
                          taken: seq<Room>, visits: seq<Room>, k: nat, m: nat) {
    && Tour(g, root, q, visits, k) && Ledger(g, root, q, queue, taken, visits, k)
    && parents == Members(visits) && Shows(visits, m, |q.shortIds|, rooms)
  }

  lemma TakeClosed(g: Graph, root: Room, q: Query, queue: seq<Room>, taken: seq<Room>, visits: seq<Room>, k: nat)
    requires k <= |visits| && Ledger(g, root, q, queue, taken, visits, k) && queue != [] && !IsOpen(g, queue[0])
    ensures Ledger(g, root, q, queue[1..], taken + [queue[0]], visits, k)
  {
    assert taken + queue == (taken + [queue[0]]) + queue[1..];
    OpenConcat(g, taken, [queue[0]]);
    OpenOne(g, queue[0]);
  }

  /** Where the cut-off is after a visit to `x`. */
  ghost function NewCut(visits: seq<Room>, k: nat, x: Room, maxDepth: nat): nat {
    if |Members(visits) + {x}| > maxDepth then k else |visits| + 1
  }

  lemma CutStep(visits: seq<Room>, k: nat, x: Room, maxDepth: nat)
    requires CutAt(visits, k, maxDepth)
    ensures CutAt(visits + [x], NewCut(visits, k, x, maxDepth), maxDepth)
    ensures |Members(visits) + {x}| <= maxDepth ==> k == |visits|
  {
    var all := visits + [x];
    MembersSnoc(visits, x);
    assert all[..|visits| + 1] == all && visits[..|visits|] == visits;
    forall j | 0 <= j <= |visits|
      ensures Seen(all, j) == Seen(visits, j)
    {
      assert all[..j] == visits[..j];
    }
    if k < |visits| {
      MembersGrow(visits, k + 1, |visits|);
    }
  }

  lemma ShowStep(visits: seq<Room>, m: nat, token: nat, rooms: seq<Room>, x: Room)
    requires Shows(visits, m, token, rooms)
    ensures |Members(visits)| >= token ==> Shows(visits + [x], m, token, rooms + [x])
    ensures |Members(visits)| < token ==> Shows(visits + [x], |visits| + 1, token, rooms)
  {
    var all := visits + [x];
    forall j | 0 <= j <= |visits|
      ensures Seen(all, j) == Seen(visits, j)
    {
      assert all[..j] == visits[..j];
    }
    assert visits[..|visits|] == visits;
    if m < |visits| {
      MembersGrow(visits, m, |visits|);
    }
    assert all[m..] == rooms + [x];
  }

  /** A visit that is not expanded moves an entry from the queue to the visits. */
  lemma LedgerKeep(g: Graph, root: Room, q: Query, queue: seq<Room>, taken: seq<Room>, visits: seq<Room>, k: nat)
    requires k <= |visits| && Ledger(g, root, q, queue, taken, visits, k) && queue != [] && IsOpen(g, queue[0])
    ensures Ledger(g, root, q, queue[1..], taken + [queue[0]], visits + [queue[0]], k)
  {
    hide Offers, OpenOnly;
    var x := queue[0];
    OpenConcat(g, taken, [x]);
    OpenOne(g, x);
    OffersLocal(g, root, q, visits, x, k);
    assert taken + queue == (taken + [x]) + queue[1..];
  }

  /** The expansion of the last visit adds its offer to the queue. */
  lemma LedgerGrow(g: Graph, root: Room, q: Query, queue: seq<Room>, taken: seq<Room>, visits: seq<Room>, x: Room)
    requires Ledger(g, root, q, queue, taken, visits + [x], |visits|) && IsOpen(g, x)
    ensures Ledger(g, root, q, queue + Kids(g, q, x, Members(visits)), taken, visits + [x], |visits| + 1)
  {
    hide Kids, Members, Offer, OpenOnly;
    KidsAreOffer(g, q, visits, x);
    var kids := Kids(g, q, x, Members(visits));
    assert taken + (queue + kids) == (taken + queue) + kids;
  }

  lemma LedgerStep(g: Graph, root: Room, q: Query, queue: seq<Room>, taken: seq<Room>, visits: seq<Room>, k: nat)
    requires CutAt(visits, k, q.maxDepth) && Ledger(g, root, q, queue, taken, visits, k) && queue != [] && IsOpen(g, queue[0])
    ensures var (x, k') := (queue[0], NewCut(visits, k, queue[0], q.maxDepth));
            && k' <= |visits| + 1
            && (|Members(visits) + {x}| > q.maxDepth ==> Ledger(g, root, q, queue[1..], taken + [x], visits + [x], k'))
            && (|Members(visits) + {x}| <= q.maxDepth ==>
                  Ledger(g, root, q, queue[1..] + Kids(g, q, x, Members(visits)), taken + [x], visits + [x], k'))
  {
    CutStep(visits, k, queue[0], q.maxDepth);
    LedgerKeep(g, root, q, queue, taken, visits, k);
    hide Ledger, Members, Kids;
    if |Members(visits) + {queue[0]}| <= q.maxDepth {
      LedgerGrow(g, root, q, queue[1..], taken + [queue[0]], visits, queue[0]);
    }
  }

  /** The head of the queue is the next visit. */
  lemma NextVisit(g: Graph, root: Room, q: Query, queue: seq<Room>, taken: seq<Room>, visits: seq<Room>, k: nat)
    requires k <= |visits| && Ledger(g, root, q, queue, taken, visits, k) && queue != [] && IsOpen(g, queue[0])
    ensures visits + [queue[0]] <= OpenOnly(g, Offers(g, root, q, visits, k))
  {
    hide Offers, OpenOnly;
    var (x, rest) := (queue[0], queue[1..]);
    assert taken + queue == (taken + [x]) + rest;
    OpenConcat(g, taken + [x], rest);
    OpenConcat(g, taken, [x]);
    OpenOne(g, x);
  }

  lemma CausalStep(g: Graph, root: Room, q: Query, queue: seq<Room>, taken: seq<Room>, visits: seq<Room>, k: nat)
    requires Tour(g, root, q, visits, k) && k <= |visits|
    requires Ledger(g, root, q, queue, taken, visits, k) && queue != [] && IsOpen(g, queue[0])
    ensures Tour(g, root, q, visits + [queue[0]], NewCut(visits, k, queue[0], q.maxDepth))
  {
    hide Members, Offers, OpenOnly, Ledger;
    var (x, all) := (queue[0], visits + [queue[0]]);
    CutStep(visits, k, x, q.maxDepth);
    NextVisit(g, root, q, queue, taken, visits, k);
    hide CutAt;
    var k' := NewCut(visits, k, x, q.maxDepth);
    forall j | 0 <= j < |all|
      ensures all[..j + 1] <= OpenOnly(g, Offers(g, root, q, all, Least(j, k')))
    {
      assert Least(j, k') == Least(j, k) <= |visits|;
      OffersLocal(g, root, q, visits, x, Least(j, k));
      assert j < |visits| ==> all[..j + 1] == visits[..j + 1];
      assert j == |visits| ==> all[..j + 1] == all;
    }
  }

  /** One turn at an accessible room. */
  lemma Turn(g: Graph, root: Room, q: Query, queue: seq<Room>, parents: set<Room>, rooms: seq<Room>,
             taken: seq<Room>, visits: seq<Room>, k: nat, m: nat)
    requires Touring(g, root, q, queue, parents, rooms, taken, visits, k, m) && queue != [] && IsOpen(g, queue[0])
    ensures var x := queue[0];
            var more := if |parents + {x}| > q.maxDepth then queue[1..] else queue[1..] + Kids(g, q, x, parents);
            var listed := if |parents| >= |q.shortIds| then rooms + [x] else rooms;
            Touring(g, root, q, more, parents + {x}, listed, taken + [x], visits + [x],
                    NewCut(visits, k, x, q.maxDepth), if |parents| >= |q.shortIds| then m else |visits| + 1)
  {
    TourCut(g, root, q, visits, k);
    hide Tour, Ledger, Shows, CutAt, Kids;
    CausalStep(g, root, q, queue, taken, visits, k);
    LedgerStep(g, root, q, queue, taken, visits, k);
    ShowStep(visits, m, |q.shortIds|, rooms, queue[0]);
    MembersSnoc(visits, queue[0]);
  }

  lemma TourCut(g: Graph, root: Room, q: Query, visits: seq<Room>, k: nat)
    requires Tour(g, root, q, visits, k)
    ensures CutAt(visits, k, q.maxDepth) && k <= |visits|
  {
  }

  lemma TourDone(g: Graph, root: Room, q: Query, parents: set<Room>, rooms: seq<Room>, taken: seq<Room>, visits: seq<Room>, k: nat, m: nat)
    requires Touring(g, root, q, [], parents, rooms, taken, visits, k, m)
    ensures Whole(g, root, q, visits, k)
  {
    assert taken + [] == taken;
  }

  /** The walk goes on as a tour. */
  lemma {:induction false} WalkTours(g: Graph, root: Room, q: Query, queue: seq<Room>, parents: set<Room>, rooms: seq<Room>,
                                     taken: seq<Room>, visits: seq<Room>, k: nat, m: nat)
      returns (visits': seq<Room>, k': nat, m': nat)
    requires parents <= OpenRooms(g) && Touring(g, root, q, queue, parents, rooms, taken, visits, k, m)
    ensures var r := Walk(g, root, q, queue, parents, rooms);
            r.Rooms? ==> && Tour(g, root, q, visits', k') && k' <= |visits'|
                         && Shows(visits', m', |q.shortIds|, r.rooms)
                         && (|r.rooms| < q.limit ==> Whole(g, root, q, visits', k'))
    decreases OpenRooms(g) - parents, Stale(queue, parents), |queue|
  {
    hide Tour, Ledger, Shows, Kids, Whole, Members;
    visits', k', m' := visits, k, m;
    TourCut(g, root, q, visits, k);
    if queue == [] {
      TourDone(g, root, q, parents, rooms, taken, visits, k, m);
    } else {
      var (x, rest) := (queue[0], queue[1..]);
      PopStale(g, queue, parents);
      if !IsOpen(g, x) {
        if x != root {
          TakeClosed(g, root, q, queue, taken, visits, k);
          visits', k', m' := WalkTours(g, root, q, rest, parents, rooms, taken + [x], visits, k, m);
        }
      } else {
        var populate := |parents| >= |q.shortIds|;
        var kids := Kids(g, q, x, parents);
        var listed := if populate then rooms + [x] else rooms;
        var more := if |parents + {x}| > q.maxDepth then rest else rest + kids;
        Turn(g, root, q, queue, parents, rooms, taken, visits, k, m);
        visits', k', m' := visits + [x], NewCut(visits, k, x, q.maxDepth), if populate then m else |visits| + 1;
        TourCut(g, root, q, visits', k');
        if !populate && rest == [] && kids == [] {
          assert more == [];
          TourDone(g, root, q, parents + {x}, listed, taken + [x], visits', k', m');
        } else if |listed| < q.limit {
          GrowParents(g, rest, kids, parents, x);
          visits', k', m' := WalkTours(g, root, q, more, parents + {x}, listed, taken + [x], visits', k', m');
        }
      }
    }
  }

  /** Every answer is the part of a tour behind the token, and below the limit of the whole tour. */
  lemma HierarchyIsTour(g: Graph, root: Room, q: Query) returns (visits: seq<Room>, k: nat, m: nat)
    ensures var r := Walk(g, root, q, [root], {}, []);
            r.Rooms? ==> && Tour(g, root, q, visits, k) && k <= |visits|
                         && Shows(visits, m, |q.shortIds|, r.rooms)
                         && (|r.rooms| < q.limit ==> Whole(g, root, q, visits, k))
  {
    hide Walk;
    var none: seq<Room> := [];
    assert none + [root] == [root];
    visits, k, m := WalkTours(g, root, q, [root], {}, [], [], [], 0, 0);
  }
}
