/** The public room directory: filter, stable sort by member count, and page tokens. */
module Paging {
  import opened Sequences

  datatype Room = Room(id: string, members: nat)

  datatype Page = Page(chunk: seq<Room>, prev: Option<string>, next: Option<string>, total: nat)

  datatype Result<T> = Ok(value: T) | InvalidToken | Overflow

  const USIZE_MAX: nat := 0xFFFF_FFFF_FFFF_FFFF
  const DEFAULT_LIMIT: nat := 10

  // --------------------------------------------------------------------- page tokens

  function Digit(d: nat): char
    requires d < 10
  {
    '0' + (d as char)
  }

  predicate IsDigit(c: char) {
    '0' <= c <= '9'
  }

  function Print(n: nat): (s: string)
    ensures s != [] && forall i :: 0 <= i < |s| ==> IsDigit(s[i])
  {
    if n < 10 then [Digit(n)] else Print(n / 10) + [Digit(n % 10)]
  }

  predicate Digits(s: string) {
    forall i :: 0 <= i < |s| ==> IsDigit(s[i])
  }

  function Value(s: string): nat
    requires Digits(s)
  {
    if s == [] then 0
    else
      assert IsDigit(s[|s| - 1]);
      Value(s[..|s| - 1]) * 10 + (s[|s| - 1] as int - '0' as int)
  }

  /** `str::parse::<usize>`: an optional plus sign, digits, no overflow. */
  function Parse(s: string): Option<nat> {
    var t := if |s| > 1 && s[0] == '+' then s[1..] else s;
    if t == [] || !Digits(t) then None
    else if Value(t) > USIZE_MAX then None
    else Some(Value(t))
  }

  lemma {:induction false} ValuePrint(n: nat)
    ensures Value(Print(n)) == n
  {
    var s := Print(n);
    if n >= 10 {
      ValuePrint(n / 10);
      assert s[..|s| - 1] == Print(n / 10);
    } else {
      assert s[..0] == [];
    }
  }

  /** Printing and parsing an offset are inverse. */
  lemma ParsePrint(n: nat)
    requires n <= USIZE_MAX
    ensures Parse(Print(n)) == Some(n)
  {
    ValuePrint(n);
    assert IsDigit(Print(n)[0]);
  }

  /** The offset a `since` token stands for. */
  function Offset(since: Option<string>, limit: nat): Result<nat> {
    if since.None? then Ok(0)
    else if since.value == [] || (since.value[0] != 'n' && since.value[0] != 'p') then InvalidToken
    else
      match Parse(since.value[1..])
      case None => InvalidToken
      case Some(n) =>
        if since.value[0] == 'n' then Ok(n) else Ok(if n < limit then 0 else n - limit)
  }

  lemma NextToken(n: nat, limit: nat)
    requires n <= USIZE_MAX
    ensures Offset(Some("n" + Print(n)), limit) == Ok(n)
    ensures Offset(Some("p" + Print(n)), limit) == Ok(if n < limit then 0 else n - limit)
  {
    ParsePrint(n);
    assert ("n" + Print(n))[1..] == Print(n) && ("p" + Print(n))[1..] == Print(n);
  }

  lemma NotNumber(s: string, i: nat)
    requires i < |s| && !IsDigit(s[i]) && (i > 0 || s[0] != '+')
    ensures Parse(s) == None
  {
    var t := if |s| > 1 && s[0] == '+' then s[1..] else s;
    var k := if |s| > 1 && s[0] == '+' then i - 1 else i;
    assert t[k] == s[i];
    assert !Digits(t);
  }

  /** A token is refused unless it is an `n` or a `p` in front of a number. */
  lemma InvalidTokens(since: string, limit: nat)
    ensures since == [] || (since[0] != 'n' && since[0] != 'p') ==> Offset(Some(since), limit) == InvalidToken
    ensures since == "n" || since == "p" ==> Offset(Some(since), limit) == InvalidToken
    ensures (exists i :: 1 < i < |since| && !('0' <= since[i] <= '9')) ==> Offset(Some(since), limit) == InvalidToken
    ensures |since| > 1 && since[1] != '+' && !('0' <= since[1] <= '9') ==> Offset(Some(since), limit) == InvalidToken
    ensures Offset(None, limit) == Ok(0)
  {
    if |since| > 1 && (since[0] == 'n' || since[0] == 'p') {
      var s := since[1..];
      if i :| 1 < i < |since| && !('0' <= since[i] <= '9') {
        NotNumber(s, i - 1);
      }
      if since[1] != '+' && !('0' <= since[1] <= '9') {
        NotNumber(s, 0);
      }
    }
  }

  // --------------------------------------------------------------- filter and sort

  function Filter(rooms: seq<Room>, keep: Room -> bool): seq<Room> {
    if rooms == [] then [] else (if keep(rooms[0]) then [rooms[0]] else []) + Filter(rooms[1..], keep)
  }

  /** The filter keeps exactly the wanted rooms, as often as they occur. */
  lemma {:induction false} FilterExactly(rooms: seq<Room>, keep: Room -> bool, x: Room)
    ensures multiset(Filter(rooms, keep))[x] == if keep(x) then multiset(rooms)[x] else 0
  {
    if rooms != [] {
      FilterExactly(rooms[1..], keep, x);
      assert rooms == [rooms[0]] + rooms[1..];
    }
  }

  lemma FilterNone(keep: Room -> bool)
    ensures Filter([], keep) == []
  {
  }

  lemma FilterCons(x: Room, rest: seq<Room>, keep: Room -> bool)
    ensures Filter([x] + rest, keep) == (if keep(x) then [x] else []) + Filter(rest, keep)
  {
    assert ([x] + rest)[1..] == rest;
  }

  lemma {:induction false} FilterConcat(a: seq<Room>, b: seq<Room>, keep: Room -> bool)
    ensures Filter(a + b, keep) == Filter(a, keep) + Filter(b, keep)
  {
    hide Filter;
    if a == [] {
      assert a + b == b;
      FilterNone(keep);
    } else {
      var (x, rest) := (a[0], a[1..]);
      assert a == [x] + rest && a + b == [x] + (rest + b);
      FilterConcat(rest, b, keep);
      FilterCons(x, rest, keep);
      FilterCons(x, rest + b, keep);
    }
  }

  predicate Descending(rooms: seq<Room>) {
    forall i, j :: 0 <= i < j < |rooms| ==> rooms[i].members >= rooms[j].members
  }

  /** Puts `r` behind every room that has at least as many members. */
  function Insert(rooms: seq<Room>, r: Room): seq<Room> {
    if rooms == [] || rooms[|rooms| - 1].members >= r.members then rooms + [r]
    else Insert(rooms[..|rooms| - 1], r) + [rooms[|rooms| - 1]]
  }

  /** The stable sort by descending member count. */
  function Sort(rooms: seq<Room>): seq<Room> {
    if rooms == [] then [] else Insert(Sort(rooms[..|rooms| - 1]), rooms[|rooms| - 1])
  }

  lemma {:induction false} InsertKeeps(rooms: seq<Room>, r: Room)
    ensures multiset(Insert(rooms, r)) == multiset(rooms) + multiset{r}
    decreases |rooms|
  {
    if rooms != [] && rooms[|rooms| - 1].members < r.members {
      var init, last := rooms[..|rooms| - 1], rooms[|rooms| - 1];
      InsertKeeps(init, r);
      assert rooms == init + [last];
    }
  }

  lemma InsertMember(rooms: seq<Room>, r: Room, x: Room)
    requires x in Insert(rooms, r)
    ensures x in rooms || x == r
  {
    InsertKeeps(rooms, r);
    assert x in multiset(Insert(rooms, r));
  }

  lemma AppendLeast(rooms: seq<Room>, last: Room)
    requires Descending(rooms) && forall x :: x in rooms ==> x.members >= last.members
    ensures Descending(rooms + [last])
  {
  }

  lemma {:induction false} InsertSorts(rooms: seq<Room>, r: Room)
    requires Descending(rooms)
    ensures Descending(Insert(rooms, r))
    decreases |rooms|
  {
    if rooms == [] || rooms[|rooms| - 1].members >= r.members {
      AppendLeast(rooms, r);
    } else {
      var init, last := rooms[..|rooms| - 1], rooms[|rooms| - 1];
      InsertSorts(init, r);
      assert forall x :: x in init ==> x.members >= last.members;
      forall x | x in Insert(init, r)
        ensures x.members >= last.members
      {
        InsertMember(init, r, x);
      }
      hide Descending;
      AppendLeast(Insert(init, r), last);
    }
  }

  lemma {:induction false} SortOrders(rooms: seq<Room>)
    ensures Descending(Sort(rooms))
    decreases |rooms|
  {
    if rooms != [] {
      SortOrders(rooms[..|rooms| - 1]);
      hide Descending, Insert;
      InsertSorts(Sort(rooms[..|rooms| - 1]), rooms[|rooms| - 1]);
    }
  }

  lemma {:induction false} SortKeeps(rooms: seq<Room>)
    ensures multiset(Sort(rooms)) == multiset(rooms)
    decreases |rooms|
  {
    hide Insert;
    if rooms != [] {
      var init, last := rooms[..|rooms| - 1], rooms[|rooms| - 1];
      SortKeeps(init);
      InsertKeeps(Sort(init), last);
      assert rooms == init + [last];
    }
  }

  lemma {:induction false} SortStable(rooms: seq<Room>, m: nat)
    ensures OfSize(Sort(rooms), m) == OfSize(rooms, m)
    decreases |rooms|
  {
    hide Insert, Descending;
    if rooms != [] {
      var init, last := rooms[..|rooms| - 1], rooms[|rooms| - 1];
      SortStable(init, m);
      SortOrders(init);
      InsertStable(Sort(init), last, m);
    }
  }

  /** Sorted by member count, the same rooms, and rooms of equal size in their old order. */
  lemma SortCorrect(rooms: seq<Room>, m: nat)
    ensures Descending(Sort(rooms)) && multiset(Sort(rooms)) == multiset(rooms)
    ensures OfSize(Sort(rooms), m) == OfSize(rooms, m)
  {
    hide Sort, OfSize, Descending;
    SortOrders(rooms);
    SortKeeps(rooms);
    SortStable(rooms, m);
  }

  /** The rooms with exactly `m` members, in order. */
  function OfSize(rooms: seq<Room>, m: nat): seq<Room> {
    if rooms == [] then []
    else OfSize(rooms[..|rooms| - 1], m) + (if rooms[|rooms| - 1].members == m then [rooms[|rooms| - 1]] else [])
  }

  lemma OfSizeSnoc(rooms: seq<Room>, r: Room, m: nat)
    ensures OfSize(rooms + [r], m) == OfSize(rooms, m) + (if r.members == m then [r] else [])
  {
    assert (rooms + [r])[..|rooms|] == rooms;
  }

  lemma {:induction false} InsertStable(rooms: seq<Room>, r: Room, m: nat)
    requires Descending(rooms)
    ensures OfSize(Insert(rooms, r), m) == OfSize(rooms, m) + (if r.members == m then [r] else [])
    decreases |rooms|
  {
    hide OfSize;
    if rooms == [] || rooms[|rooms| - 1].members >= r.members {
      OfSizeSnoc(rooms, r, m);
    } else {
      var init, last := rooms[..|rooms| - 1], rooms[|rooms| - 1];
      InsertStable(init, r, m);
      OfSizeSnoc(Insert(init, r), last, m);
      OfSizeSnoc(init, last, m);
      assert rooms == init + [last];
    }
  }

  // --------------------------------------------------------------------- one page

  function Listing(rooms: seq<Room>, keep: Room -> bool): seq<Room> {
    Sort(Filter(rooms, keep))
  }

  /** Filtering does not change the order of rooms of one size. */
  lemma {:induction false} FilterOfSize(rooms: seq<Room>, keep: Room -> bool, m: nat)
    ensures OfSize(Filter(rooms, keep), m) == Filter(OfSize(rooms, m), keep)
    decreases |rooms|
  {
    if rooms != [] {
      var (init, last) := (rooms[..|rooms| - 1], rooms[|rooms| - 1]);
      FilterOfSize(init, keep, m);
      assert rooms == init + [last];
      FilterConcat(init, [last], keep);
      FilterOne(last, keep);
      OfSizeSnoc(init, last, m);
      OfSizeSnoc(Filter(init, keep), last, m);
      FilterConcat(OfSize(init, m), [last], keep);
      hide Filter, OfSize;
      assert forall s: seq<Room> :: s + [] == s;
    }
  }

  lemma FilterOne(x: Room, keep: Room -> bool)
    ensures Filter([x], keep) == if keep(x) then [x] else []
  {
    assert [x][1..] == [];
  }

  /** The listing has the wanted rooms as often as they occur, in descending member count, and those of one size
      in the order in which they came. */
  lemma ListingExactly(rooms: seq<Room>, keep: Room -> bool, x: Room, m: nat)
    ensures multiset(Listing(rooms, keep))[x] == if keep(x) then multiset(rooms)[x] else 0
    ensures Descending(Listing(rooms, keep)) && OfSize(Listing(rooms, keep), m) == Filter(OfSize(rooms, m), keep)
  {
    hide Sort, Filter, OfSize, Descending;
    SortCorrect(Filter(rooms, keep), m);
    FilterExactly(rooms, keep, x);
    FilterOfSize(rooms, keep, m);
  }

  function Min(a: nat, b: nat): nat {
    if a < b then a else b
  }

  /** The rooms from `from` on, at most `limit` of them. */
  function Slice(all: seq<Room>, from: nat, limit: nat): seq<Room> {
    var lo := Min(from, |all|);
    all[lo..lo + Min(limit, |all| - lo)]
  }

  /** The part of the helper that reads the `since` token. */
  method ParseSince(since: Option<string>, limit: nat) returns (r: Result<nat>)
    ensures r == Offset(since, limit) && (r.Ok? || r.InvalidToken?)
  {
    hide Parse;
    var numSince := 0;
    if since.Some? {
      var s := since.value;
      if s == [] || (s[0] != 'n' && s[0] != 'p') {
        return InvalidToken;
      }
      var backwards := s[0] == 'p';
      var parsed := Parse(s[1..]);
      if parsed.None? {
        return InvalidToken;
      }
      numSince := parsed.value;
      if backwards {
        numSince := if numSince < limit then 0 else numSince - limit;
      }
    }
    r := Ok(numSince);
  }

  /** `get_public_rooms_filtered_helper` for the local server. */
  method GetPage(rooms: seq<Room>, keep: Room -> bool, maxRooms: Option<nat>, since: Option<string>)
      returns (r: Result<Page>)
    ensures var limit := if maxRooms.None? then 10 else maxRooms.value;
            var all := Listing(rooms, keep);
            match Offset(since, limit)
            case Ok(from) =>
              if from + limit > 0xFFFF_FFFF_FFFF_FFFF then r == Overflow
              else
                && r.Ok? && r.value.chunk == Slice(all, from, limit) && r.value.total == |all|
                && r.value.prev == (if from == 0 then None else Some("p" + Print(from)))
                && r.value.next == (if |r.value.chunk| < limit then None else Some("n" + Print(from + limit)))
            case _ => r == InvalidToken
  {
    hide Print, Sort, Filter, Offset;
    var limit := if maxRooms.None? then DEFAULT_LIMIT else maxRooms.value;
    var start := ParseSince(since, limit);
    if !start.Ok? {
      return InvalidToken;
    }
    var numSince := start.value;
    var all := Sort(Filter(rooms, keep));
    var rest := if numSince < |all| then all[numSince..] else [];
    var chunk := if limit < |rest| then rest[..limit] else rest;
    assert chunk == Slice(all, numSince, limit);
    hide Slice;
    var prev := if numSince != 0 then Some("p" + Print(numSince)) else None;
    if numSince + limit > USIZE_MAX {
      return Overflow;
    }
    var next := if |chunk| >= limit then Some("n" + Print(numSince + limit)) else None;
    r := Ok(Page(chunk, prev, next, |all|));
  }

  // ------------------------------------------------------------------ walking the pages

  /** Following `next_batch` from the start ends, and the pages put together are the whole filtered
      list in descending member count. */
  method FollowNext(rooms: seq<Room>, keep: Room -> bool, limit: nat) returns (out: seq<Room>)
    requires limit >= 1 && |Listing(rooms, keep)| + limit <= USIZE_MAX
    ensures out == Listing(rooms, keep) && Descending(out)
    ensures forall x :: multiset(out)[x] == if keep(x) then multiset(rooms)[x] else 0
  {
    hide Listing, Print, Parse;
    ghost var all := Listing(rooms, keep);
    out := [];
    var since: Option<string> := None;
    var more := true;
    while more
      invariant |out| <= |all| && out == all[..|out|]
      invariant more ==> Offset(since, limit) == Ok(|out|)
      invariant !more ==> out == all
      decreases more, |all| - |out|
    {
      var page := GetPage(rooms, keep, Some(limit), since);
      out := out + page.value.chunk;
      since := page.value.next;
      more := since.Some?;
      if more {
        NextToken(|out|, limit);
      }
    }
    forall x
      ensures multiset(out)[x] == if keep(x) then multiset(rooms)[x] else 0
    {
      ListingExactly(rooms, keep, x, 0);
    }
    ListingExactly(rooms, keep, Room("", 0), 0);
  }

  lemma SliceJoin(all: seq<Room>, from: nat, limit: nat)
    requires limit <= from <= |all|
    ensures |Slice(all, from - limit, limit)| == limit
    ensures Slice(all, from - limit, limit) + Slice(all, from, limit) == Slice(all, from - limit, 2 * limit)
  {
  }

  /** The previous page of a page at offset `from >= limit` is the one in front of it, and its
      `next_batch` leads back. */
  method PreviousPage(rooms: seq<Room>, keep: Room -> bool, limit: nat, from: nat) returns (before: Page)
    requires 1 <= limit <= from <= |Listing(rooms, keep)| && from + limit <= USIZE_MAX
    ensures before.chunk + Slice(Listing(rooms, keep), from, limit) == Slice(Listing(rooms, keep), from - limit, 2 * limit)
    ensures |before.chunk| == limit && before.next == Some("n" + Print(from))
  {
    hide Listing, Parse, Print, Slice, Offset;
    NextToken(from, limit);
    var page := GetPage(rooms, keep, Some(limit), Some("n" + Print(from)));
    var back := GetPage(rooms, keep, Some(limit), page.value.prev);
    SliceJoin(Listing(rooms, keep), from, limit);
    before := back.value;
  }

  /** With limit 0 every page is empty and points at itself: the walk would never end. */
  method ZeroLimit(rooms: seq<Room>, keep: Room -> bool, from: nat) returns (page: Page)
    requires from <= USIZE_MAX
    ensures page.chunk == [] && page.next == Some("n" + Print(from))
  {
    NextToken(from, 0);
    var r := GetPage(rooms, keep, Some(0), Some("n" + Print(from)));
    page := r.value;
  }
}
