/** The two key-rewriting migrations, stated against the record format. */
module Repairs {
  import opened Bytes
  import opened Codec

  type Key = seq<byte>
  type Value = seq<byte>

  const DOLLAR: byte := 0x24

  /** Index of the first `b` in `k`, or `|k|`. */
  function IndexOf(k: Key, b: byte): (i: nat)
    ensures i <= |k| && b !in k[..i] && (i < |k| ==> k[i] == b)
  {
    if k == [] || k[0] == b then 0
    else
      var i := IndexOf(k[1..], b);
      assert k[..i + 1] == [k[0]] + k[1..][..i];
      i + 1
  }

  lemma {:induction false} IndexUnique(k: Key, b: byte, i: nat)
    requires i < |k| && k[i] == b && b !in k[..i]
    ensures IndexOf(k, b) == i
  {
    var j := IndexOf(k, b);
    assert forall m :: 0 <= m < i ==> k[m] in k[..i];
    assert forall m :: 0 <= m < j ==> k[m] in k[..j];
  }

  // --------------------------------------------------------- missing separator

  /** `fix_referencedevents_missing_sep` gives up on this key. */
  predicate MissingPanics(k: Key) {
    SEP !in k && (!ValidUtf8(k) || DOLLAR !in k)
  }

  function FixMissing(k: Key): Key {
    if SEP in k || DOLLAR !in k then k
    else Encode([Str(k[..IndexOf(k, DOLLAR)]), Str(k[IndexOf(k, DOLLAR)..])])
  }

  lemma PairBytes(a: seq<byte>, b: seq<byte>)
    ensures Encode([Str(a), Str(b)]) == a + [SEP] + b
  {
    assert [Str(a), Str(b)][1..] == [Str(b)];
  }

  /** An unseparated room-then-event key becomes the encoding of (room, event). */
  lemma MissingBecomesPair(room: seq<byte>, event: seq<byte>)
    requires ValidUtf8(room + event) && DOLLAR !in room && event != [] && event[0] == DOLLAR
    ensures !MissingPanics(room + event)
    ensures FixMissing(room + event) == Encode([Str(room), Str(event)])
  {
    var k := room + event;
    SepNotInUtf8(k);
    assert k[|room|] == DOLLAR && k[..|room|] == room && k[|room|..] == event;
    IndexUnique(k, DOLLAR, |room|);
  }

  // ---------------------------------------------------------- double separator

  /** `fix_bad_double_separator_in_state_cache` gives up on this key. */
  predicate DoublePanics(k: Key) {
    SEP !in k
  }

  predicate Doubled(k: Key) {
    var i := IndexOf(k, SEP);
    i + 1 < |k| && k[i + 1] == SEP
  }

  predicate Tripled(k: Key) {
    var i := IndexOf(k, SEP);
    i + 2 < |k| && k[i + 1] == SEP && k[i + 2] == SEP
  }

  function FixDouble(k: Key): Key {
    var i := IndexOf(k, SEP);
    if Doubled(k) then k[..i] + k[i + 1..] else k
  }

  /** A doubly separated key becomes the encoding of (room, user). */
  lemma DoubleBecomesPair(room: seq<byte>, user: seq<byte>)
    requires SEP !in room
    ensures FixDouble(room + [SEP, SEP] + user) == Encode([Str(room), Str(user)])
  {
    var k := room + [SEP, SEP] + user;
    assert k[..|room|] == room;
    IndexUnique(k, SEP, |room|);
    assert k[|room| + 1..] == [SEP] + user;
    PairBytes(room, user);
  }

  lemma TripledStaysDoubled(k: Key)
    ensures Doubled(FixDouble(k)) <==> Tripled(k)
  {
    var i := IndexOf(k, SEP);
    if Doubled(k) {
      var f := FixDouble(k);
      assert f[..i] == k[..i] && f[i] == SEP;
      IndexUnique(f, SEP, i);
    }
  }

  /** The fix is idempotent on exactly the keys without a third separator in a row. */
  lemma DoubleIdempotent(k: Key)
    ensures FixDouble(FixDouble(k)) == FixDouble(k) <==> !Tripled(k)
  {
    TripledStaysDoubled(k);
    assert forall f :: Doubled(f) ==> |FixDouble(f)| < |f|;
  }

  // -------------------------------------------------------------- the rewriting loop

  /** Fixed keys are left alone and distinct broken keys have distinct repairs. */
  ghost predicate Repair(rows: map<Key, Value>, fix: Key -> Key) {
    && (forall k :: k in rows ==> fix(fix(k)) == fix(k))
    && (forall j, k :: j in rows && k in rows && fix(j) != j && fix(k) != k && fix(j) == fix(k) ==> j == k)
  }

  /** Every row moved to its repaired key, with its value; a repaired row replaces the row it meets. */
  ghost predicate Rewritten(old': map<Key, Value>, new': map<Key, Value>, fix: Key -> Key) {
    && (forall k :: k in new' <==> exists j :: j in old' && fix(j) == k)
    && (forall j :: j in old' && fix(j) != j ==> fix(j) in new' && new'[fix(j)] == old'[j])
    && (forall j :: j in old' && fix(j) == j && !Met(old', fix, j) ==> j in new' && new'[j] == old'[j])
  }

  /** Broken rows still to be visited are untouched; the visited ones have moved. */
  ghost predicate Placed(old': map<Key, Value>, cur: map<Key, Value>, pending: set<Key>, fix: Key -> Key) {
    && (forall j :: j in old' && fix(j) != j && j in pending ==> j in cur && cur[j] == old'[j])
    && (forall j :: j in old' && fix(j) != j && j !in pending ==> j !in cur && fix(j) in cur && cur[fix(j)] == old'[j])
  }

  ghost predicate Met(old': map<Key, Value>, fix: Key -> Key, k: Key) {
    exists i :: i in old' && fix(i) != i && fix(i) == k
  }

  /** Sound rows stay, and keep their value unless a repaired row meets them. */
  ghost predicate Kept(old': map<Key, Value>, cur: map<Key, Value>, fix: Key -> Key) {
    forall j :: j in old' && fix(j) == j ==> j in cur && (!Met(old', fix, j) ==> cur[j] == old'[j])
  }

  /** Nothing else is in the table, and the iterator only yields rows of the table. */
  ghost predicate Known(old': map<Key, Value>, cur: map<Key, Value>, pending: set<Key>, fix: Key -> Key) {
    && (forall k :: k in cur ==> k in old' || Met(old', fix, k))
    && (forall k :: k in pending ==> k in cur && (fix(k) != k ==> k in old'))
  }

  ghost predicate Progress(old': map<Key, Value>, cur: map<Key, Value>, pending: set<Key>, fix: Key -> Key) {
    Placed(old', cur, pending, fix) && Kept(old', cur, fix) && Known(old', cur, pending, fix)
  }

  lemma MovedPlaced(old': map<Key, Value>, cur: map<Key, Value>, pending: set<Key>, fix: Key -> Key, k: Key, more: set<Key>)
    requires Repair(old', fix) && Placed(old', cur, pending, fix)
    requires k in pending && k in cur && k in old' && fix(k) != k && more <= {fix(k)}
    ensures Placed(old', cur[fix(k) := cur[k]] - {k}, pending - {k} + more, fix)
  {
    var cur', pending' := cur[fix(k) := cur[k]] - {k}, pending - {k} + more;
    forall j | j in old' && fix(j) != j
      ensures j in pending' ==> j in cur' && cur'[j] == old'[j]
      ensures j !in pending' ==> j !in cur' && fix(j) in cur' && cur'[fix(j)] == old'[j]
    {
      assert j != fix(k) && (j != k ==> fix(j) != fix(k)) && fix(j) != k;
    }
  }

  lemma Moved(old': map<Key, Value>, cur: map<Key, Value>, pending: set<Key>, fix: Key -> Key, k: Key, more: set<Key>)
    requires Repair(old', fix) && Progress(old', cur, pending, fix)
    requires k in pending && fix(k) != k && more <= {fix(k)}
    ensures k in cur && Progress(old', cur[fix(k) := cur[k]] - {k}, pending - {k} + more, fix)
  {
    MovedPlaced(old', cur, pending, fix, k, more);
    hide Placed;
    assert Met(old', fix, fix(k));
  }

  lemma Passed(old': map<Key, Value>, cur: map<Key, Value>, pending: set<Key>, fix: Key -> Key, k: Key)
    requires Progress(old', cur, pending, fix) && k in pending && fix(k) == k
    ensures Progress(old', cur, pending - {k}, fix)
  {
  }

  lemma AllVisited(old': map<Key, Value>, cur: map<Key, Value>, fix: Key -> Key)
    requires Repair(old', fix) && Progress(old', cur, {}, fix)
    ensures Rewritten(old', cur, fix)
  {
    forall k
      ensures k in cur <==> exists j :: j in old' && fix(j) == k
    {
      if k in cur && k in old' {
        assert fix(k) == k;
      }
    }
  }

  ghost function Broken(keys: set<Key>, fix: Key -> Key): set<Key> {
    set k | k in keys && fix(k) != k
  }

  lemma BrokenLeft(keys: set<Key>, fix: Key -> Key, k: Key, more: set<Key>)
    requires k in keys && more <= {fix(k)} && fix(fix(k)) == fix(k)
    ensures Broken(keys - {k} + more, fix) == Broken(keys, fix) - {k}
    ensures fix(k) != k ==> |Broken(keys - {k} + more, fix)| == |Broken(keys, fix)| - 1
  {
    assert Broken(keys - {k} + more, fix) == Broken(keys, fix) - {k};
  }

  /** What holds whenever the loop is about to visit the next row. */
  ghost predicate Looping(old': map<Key, Value>, cur: map<Key, Value>, pending: set<Key>,
                          fix: Key -> Key, panics: Key -> bool, fixed: int) {
    && Progress(old', cur, pending, fix)
    && (forall k :: k in old' && k !in pending ==> !panics(k))
    && (forall k :: k in pending && panics(k) ==> k in old')
    && fixed == |Broken(old'.Keys, fix)| - |Broken(pending, fix)|
  }

  lemma Enter(rows: map<Key, Value>, fix: Key -> Key, panics: Key -> bool)
    ensures Looping(rows, rows, rows.Keys, fix, panics, 0)
  {
  }

  lemma InRows(old': map<Key, Value>, cur: map<Key, Value>, pending: set<Key>,
               fix: Key -> Key, panics: Key -> bool, fixed: int, k: Key)
    requires Looping(old', cur, pending, fix, panics, fixed) && k in pending
    ensures k in cur && (fix(k) != k || panics(k) ==> k in old')
  {
  }

  lemma VisitBroken(old': map<Key, Value>, cur: map<Key, Value>, pending: set<Key>,
                    fix: Key -> Key, panics: Key -> bool, fixed: int, k: Key, more: set<Key>)
    requires Repair(old', fix) && Looping(old', cur, pending, fix, panics, fixed)
    requires k in pending && fix(k) != k && !panics(k) && !panics(fix(k)) && more <= {fix(k)}
    ensures k in cur && Looping(old', cur[fix(k) := cur[k]] - {k}, pending - {k} + more, fix, panics, fixed + 1)
    ensures |Broken(pending - {k} + more, fix)| < |Broken(pending, fix)|
  {
    Moved(old', cur, pending, fix, k, more);
    assert fix(fix(k)) == fix(k);
    BrokenLeft(pending, fix, k, more);
  }

  lemma VisitSound(old': map<Key, Value>, cur: map<Key, Value>, pending: set<Key>,
                   fix: Key -> Key, panics: Key -> bool, fixed: int, k: Key)
    requires Looping(old', cur, pending, fix, panics, fixed) && k in pending && fix(k) == k && !panics(k)
    ensures Looping(old', cur, pending - {k}, fix, panics, fixed)
    ensures Broken(pending - {k}, fix) == Broken(pending, fix)
  {
    assert Broken(pending - {k}, fix) == Broken(pending, fix);
    Passed(old', cur, pending, fix, k);
  }

  lemma Leave(old': map<Key, Value>, cur: map<Key, Value>, fix: Key -> Key, panics: Key -> bool, fixed: int)
    requires Repair(old', fix) && Looping(old', cur, {}, fix, panics, fixed)
    ensures Rewritten(old', cur, fix) && fixed == |Broken(old'.Keys, fix)|
    ensures forall k :: k in old' ==> !panics(k)
  {
    AllVisited(old', cur, fix);
    assert Broken({}, fix) == {};
  }

  lemma IdleRun(rows: map<Key, Value>, after: map<Key, Value>, fix: Key -> Key)
    requires (forall k :: k in rows ==> fix(k) == k) && Rewritten(rows, after, fix)
    ensures after == rows
  {
    forall k | k in rows
      ensures k in after && after[k] == rows[k]
    {
      assert !Met(rows, fix, k);
    }
    forall k | k in after
      ensures k in rows
    {
      var j :| j in rows && fix(j) == k;
    }
  }

  /** A second run finds nothing to do and leaves the table as it is. */
  lemma SecondRunIsIdle(old': map<Key, Value>, once: map<Key, Value>, twice: map<Key, Value>, fix: Key -> Key)
    requires Repair(old', fix) && Rewritten(old', once, fix) && Rewritten(once, twice, fix)
    ensures Broken(once.Keys, fix) == {} && twice == once
  {
    forall k | k in once
      ensures fix(k) == k
    {
      var j :| j in old' && fix(j) == k;
    }
    hide Rewritten;
    IdleRun(once, twice, fix);
  }

  class Table {
    var rows: map<Key, Value>

    constructor (rows: map<Key, Value>)
      ensures this.rows == rows
    {
      this.rows := rows;
    }

    /** The streaming loop of a migration. The order of the visits and whether a row written on
        the way is visited as well are left open, so the result covers every iterator. */
    method Rewrite(fix: Key -> Key, panics: Key -> bool) returns (ok: bool, fixed: nat)
      requires Repair(rows, fix)
      requires forall k :: k in rows && fix(k) != k ==> !panics(fix(k))
      modifies this
      ensures ok <==> forall k :: k in old(rows) ==> !panics(k)
      ensures ok ==> Rewritten(old(rows), rows, fix) && fixed == |Broken(old(rows.Keys), fix)|
    {
      hide Looping, Repair, Rewritten, Broken;
      var pending := rows.Keys;
      fixed := 0;
      Enter(rows, fix, panics);
      while pending != {}
        invariant Looping(old(rows), rows, pending, fix, panics, fixed)
        decreases |Broken(pending, fix)|, |pending|
      {
        var k :| k in pending;
        InRows(old(rows), rows, pending, fix, panics, fixed, k);
        if panics(k) {
          return false, fixed;
        }
        var target := fix(k);
        if target != k {
          var sees: bool := *;
          var more := if sees then {target} else {};
          VisitBroken(old(rows), rows, pending, fix, panics, fixed, k, more);
          rows := rows[target := rows[k]] - {k};
          pending := pending - {k} + more;
          fixed := fixed + 1;
        } else {
          VisitSound(old(rows), rows, pending, fix, panics, fixed, k);
          pending := pending - {k};
        }
      }
      Leave(old(rows), rows, fix, panics, fixed);
      ok := true;
    }

    /** `fix_referencedevents_missing_sep`. */
    method FixMissingSeparators() returns (ok: bool, fixed: nat)
      modifies this
      ensures ok <==> forall k :: k in old(rows) ==> 0xFF in k || (ValidUtf8(k) && 0x24 in k)
      ensures ok ==> Rewritten(old(rows), rows, FixMissing) && forall k :: k in rows ==> SEP in k
      ensures ok ==> fixed == |set k | k in old(rows) && SEP !in k|
    {
      MissingIsRepair(rows);
      ok, fixed := Rewrite(FixMissing, MissingPanics);
      if ok {
        forall k | k in old(rows)
          ensures SEP in FixMissing(k) && (FixMissing(k) != k <==> SEP !in k)
        {
          MissingSeparates(k);
        }
        assert Broken(old(rows.Keys), FixMissing) == set k | k in old(rows) && SEP !in k;
      }
    }

    /** `fix_bad_double_separator_in_state_cache`: visits the rows in byte order, and looks for the next
        one in the table as it is then, with the rows it has written itself. */
    method FixDoubleSeparators() returns (ok: bool, seen: nat, fixed: nat)
      modifies this
      ensures ok <==> forall k :: k in old(rows) ==> 0xFF in k
      ensures ok ==> Rewritten(old(rows), rows, FixDouble)
      ensures ok ==> ((exists k :: k in rows && Doubled(k)) <==> (exists k :: k in old(rows) && Tripled(k)))
      ensures ok ==> seen == |old(rows)| && fixed == |DoubledIn(old(rows.Keys))|
    {
      hide Swept, FixDouble, Doubled, Rewritten, DoubledIn, Beyond, Less, IsLeast;
      ghost var before := rows;
      var ahead := rows.Keys;
      seen, fixed := 0, 0;
      SweepStart(rows);
      while ahead != {}
        invariant Swept(before, rows, ahead) && seen + |ahead| == |before|
        invariant fixed + |DoubledIn(ahead)| == |DoubledIn(before.Keys)|
        invariant forall k :: k in before && k !in ahead ==> !DoublePanics(k)
        decreases ahead
      {
        LeastKey(ahead);
        var k :| k in ahead && IsLeast(ahead, k);
        ghost var was := rows;
        SweepStep(before, rows, ahead, k);
        DoubledLess(ahead, k);
        if DoublePanics(k) {
          return false, seen, fixed;
        }
        seen := seen + 1;
        if Doubled(k) {
          var value := rows[k];
          rows := rows - {k};
          rows := rows[FixDouble(k) := value];
          fixed := fixed + 1;
        }
        assert rows == Visit(was, k);
        ahead := Beyond(rows, k);
      }
      SweepEnd(before, rows);
      DoubledLeft(before, rows);
      ok := true;
    }
  }

  lemma MissingSeparates(k: Key)
    ensures !MissingPanics(k) ==> SEP in FixMissing(k)
    ensures !MissingPanics(k) ==> (FixMissing(k) != k <==> SEP !in k)
    ensures SEP in FixMissing(k) || FixMissing(k) == k
    ensures FixMissing(k) != k ==> SEP !in k && DOLLAR in k
  {
    var i := IndexOf(k, DOLLAR);
    PairBytes(k[..i], k[i..]);
    assert (k[..i] + [SEP] + k[i..])[i] == SEP;
  }

  /** Removing the inserted separator gives the old key back, so distinct keys stay distinct. */
  lemma MissingUndone(k: Key)
    requires FixMissing(k) != k
    ensures var f := FixMissing(k);
            var i := IndexOf(f, SEP);
            i < |f| && k == f[..i] + f[i + 1..]
  {
    hide IndexOf, Encode;
    var i := IndexOf(k, DOLLAR);
    PairBytes(k[..i], k[i..]);
    var f := k[..i] + [SEP] + k[i..];
    assert f[..i] == k[..i] && f[i] == SEP;
    IndexUnique(f, SEP, i);
  }

  lemma MissingIsRepair(rows: map<Key, Value>)
    ensures Repair(rows, FixMissing)
    ensures forall k :: k in rows && FixMissing(k) != k ==> !MissingPanics(FixMissing(k))
  {
    forall k
      ensures FixMissing(FixMissing(k)) == FixMissing(k)
      ensures FixMissing(k) != k ==> !MissingPanics(FixMissing(k))
    {
      MissingSeparates(k);
    }
    forall j, k | FixMissing(j) != j && FixMissing(k) != k && FixMissing(j) == FixMissing(k)
      ensures j == k
    {
      MissingUndone(j);
      MissingUndone(k);
    }
  }

  lemma DoubleUndone(k: Key)
    requires FixDouble(k) != k
    ensures var f := FixDouble(k);
            var i := IndexOf(f, SEP);
            i < |f| && k == f[..i] + [SEP] + f[i..]
  {
    hide IndexOf;
    var i := IndexOf(k, SEP);
    var f := k[..i] + k[i + 1..];
    assert f[..i] == k[..i] && f[i..] == k[i + 1..] && f[i] == SEP;
    IndexUnique(f, SEP, i);
    assert k == k[..i] + [SEP] + k[i + 1..];
  }

  /** The double-separator repair is of the kind that may run in any order on exactly the tables
      without triple separators. */
  lemma DoubleIsRepair(rows: map<Key, Value>)
    ensures Repair(rows, FixDouble) <==> forall k :: k in rows ==> !Tripled(k)
  {
    forall k | k in rows
      ensures FixDouble(FixDouble(k)) == FixDouble(k) <==> !Tripled(k)
    {
      DoubleIdempotent(k);
    }
    forall j, k | FixDouble(j) != j && FixDouble(k) != k && FixDouble(j) == FixDouble(k)
      ensures j == k
    {
      DoubleUndone(j);
      DoubleUndone(k);
    }
  }

  // ----------------------------------------------------- the sweep in byte order

  lemma {:induction false} LessUnderSep(t: Key)
    ensures Less(t, [SEP] + t)
  {
    if t != [] && t[0] == SEP {
      LessUnderSep(t[1..]);
      assert t == [SEP] + t[1..];
    }
  }

  /** A repair moves a row towards the front of the table. */
  lemma DoubleSinks(k: Key)
    ensures FixDouble(k) != k <==> Doubled(k)
    ensures Doubled(k) ==> Less(FixDouble(k), k)
  {
    var i := IndexOf(k, SEP);
    if Doubled(k) {
      var t := k[i + 1..];
      assert k == k[..i] + ([SEP] + t);
      LessUnderSep(t);
      LessUnderPrefix(k[..i], t, [SEP] + t);
    }
  }

  predicate IsLeast(keys: set<Key>, k: Key) {
    forall j :: j in keys && j != k ==> Less(k, j)
  }

  lemma {:induction false} LeastKey(keys: set<Key>)
    requires keys != {}
    ensures exists k :: k in keys && IsLeast(keys, k)
    decreases |keys|
  {
    var x :| x in keys;
    var rest := keys - {x};
    if rest == {} {
      assert keys == {x};
      assert IsLeast(keys, x);
    } else {
      LeastKey(rest);
      var y :| y in rest && IsLeast(rest, y);
      LessTotal(x, y);
      if Less(x, y) {
        forall j | j in keys && j != x
          ensures Less(x, j)
        {
          if j != y {
            LessTransitive(x, y, j);
          }
        }
        assert IsLeast(keys, x);
      } else {
        assert IsLeast(keys, y);
      }
    }
  }

  /** The keys in `ahead` were not visited: they come last and are as they were. */
  ghost predicate Unvisited(old': map<Key, Value>, cur: map<Key, Value>, ahead: set<Key>) {
    && (forall a :: a in ahead ==> a in old' && a in cur && cur[a] == old'[a])
    && (forall j, a :: j in old' && j !in ahead && a in ahead ==> Less(j, a))
  }

  /** The visited rows are where they belong. */
  ghost predicate Landed(old': map<Key, Value>, cur: map<Key, Value>, ahead: set<Key>) {
    && (forall j :: j in old' && j !in ahead ==> FixDouble(j) in cur)
    && (forall j :: j in old' && j !in ahead && FixDouble(j) != j ==> cur[FixDouble(j)] == old'[j])
    && (forall j :: j in old' && j !in ahead && FixDouble(j) == j && !Met(old', FixDouble, j) ==> cur[j] == old'[j])
  }

  ghost predicate Swept(old': map<Key, Value>, cur: map<Key, Value>, ahead: set<Key>) {
    && Unvisited(old', cur, ahead)
    && Landed(old', cur, ahead)
    && (forall k :: k in cur && k !in ahead ==> Source(old', ahead, k))
  }

  /** A visited row was turned into `k`. */
  ghost predicate Source(old': map<Key, Value>, ahead: set<Key>, k: Key) {
    exists j :: j in old' && j !in ahead && FixDouble(j) == k
  }

  lemma SweepStart(rows: map<Key, Value>)
    ensures Swept(rows, rows, rows.Keys)
  {
  }

  /** The rows that an iterator standing at `k` has in front of it. */
  function Beyond(rows: map<Key, Value>, k: Key): set<Key> {
    set j | j in rows && Less(k, j)
  }

  function Visit(cur: map<Key, Value>, k: Key): map<Key, Value>
    requires k in cur
  {
    if Doubled(k) then (cur - {k})[FixDouble(k) := cur[k]] else cur
  }

  /** The target of a doubled key is behind the rows ahead, and no other repair reaches it or `k`. */
  lemma FreshTarget(old': map<Key, Value>, cur: map<Key, Value>, ahead: set<Key>, k: Key)
    requires Swept(old', cur, ahead) && k in ahead && IsLeast(ahead, k) && Doubled(k)
    ensures FixDouble(k) != k && FixDouble(k) !in ahead
    ensures forall j :: j in old' && j !in ahead ==> FixDouble(j) != k
    ensures forall j :: j in old' && j !in ahead && FixDouble(j) != j ==> FixDouble(j) != FixDouble(k)
  {
    hide FixDouble, Doubled;
    DoubleSinks(k);
    LessTotal(k, FixDouble(k));
    forall j | j in old' && j !in ahead
      ensures FixDouble(j) != k && (FixDouble(j) != j ==> FixDouble(j) != FixDouble(k))
    {
      DoubleSinks(j);
      LessTotal(j, k);
      if FixDouble(j) != j && FixDouble(j) == FixDouble(k) {
        DoubleUndone(j);
        DoubleUndone(k);
      }
    }
  }

  lemma BrokenLands(old': map<Key, Value>, cur: map<Key, Value>, ahead: set<Key>, k: Key, j: Key)
    requires Swept(old', cur, ahead) && k in ahead && IsLeast(ahead, k) && Doubled(k)
    requires j in old' && (j in ahead ==> j == k)
    ensures k in cur
    ensures var cur' := (cur - {k})[FixDouble(k) := cur[k]];
            && FixDouble(j) in cur'
            && (FixDouble(j) != j || !Met(old', FixDouble, j) ==> cur'[FixDouble(j)] == old'[j])
  {
    FreshTarget(old', cur, ahead, k);
    hide FixDouble, Doubled, Source, Less, IsLeast;
    assert FixDouble(j) == j ==> j != k && (FixDouble(k) == j ==> Met(old', FixDouble, j));
  }

  lemma BrokenSource(old': map<Key, Value>, cur: map<Key, Value>, ahead: set<Key>, k: Key, x: Key)
    requires Swept(old', cur, ahead) && k in ahead && x !in ahead - {k}
    requires x == FixDouble(k) || (x in cur && x != k)
    ensures Source(old', ahead - {k}, x)
  {
    hide FixDouble, Landed, Less;
    if x == FixDouble(k) {
      assert k in old' && k !in ahead - {k};
    } else {
      var j :| j in old' && j !in ahead && FixDouble(j) == x;
      assert j !in ahead - {k};
    }
  }

  lemma SweepBroken(old': map<Key, Value>, cur: map<Key, Value>, ahead: set<Key>, k: Key)
    requires Swept(old', cur, ahead) && k in ahead && IsLeast(ahead, k) && Doubled(k)
    ensures k in cur && Swept(old', (cur - {k})[FixDouble(k) := cur[k]], ahead - {k})
  {
    hide FixDouble, Doubled, Less, Met, Source;
    FreshTarget(old', cur, ahead, k);
    var (cur', ahead') := ((cur - {k})[FixDouble(k) := cur[k]], ahead - {k});
    assert Unvisited(old', cur', ahead');
    assert Landed(old', cur', ahead') by {
      forall j | j in old' && j !in ahead'
        ensures FixDouble(j) in cur'
        ensures FixDouble(j) != j || !Met(old', FixDouble, j) ==> cur'[FixDouble(j)] == old'[j]
      {
        BrokenLands(old', cur, ahead, k, j);
      }
    }
    forall x | x in cur' && x !in ahead'
      ensures Source(old', ahead', x)
    {
      BrokenSource(old', cur, ahead, k, x);
    }
  }

  lemma SweepSound(old': map<Key, Value>, cur: map<Key, Value>, ahead: set<Key>, k: Key)
    requires Swept(old', cur, ahead) && k in ahead && IsLeast(ahead, k) && FixDouble(k) == k
    ensures Swept(old', cur, ahead - {k})
  {
    hide FixDouble;
    var ahead' := ahead - {k};
    forall x | x in cur && x !in ahead'
      ensures Source(old', ahead', x)
    {
      if x == k {
        assert k in old' && k !in ahead';
      } else {
        assert Source(old', ahead, x);
      }
    }
  }

  /** The next rows are those that were ahead, although the table has changed. */
  lemma NextAhead(old': map<Key, Value>, cur: map<Key, Value>, ahead: set<Key>, k: Key)
    requires Swept(old', cur, ahead) && k !in ahead && (forall a :: a in ahead ==> Less(k, a))
    requires forall j :: j in old' && j !in ahead ==> Leq(j, k)
    ensures Beyond(cur, k) == ahead
  {
    hide FixDouble;
    forall x | x in cur && x !in ahead
      ensures !Less(k, x)
    {
      var j :| j in old' && j !in ahead && FixDouble(j) == x;
      DoubleSinks(j);
      if Less(k, x) && x != j {
        LessTransitive(k, x, j);
      }
      LessTotal(k, j);
    }
  }

  lemma SweepStep(old': map<Key, Value>, cur: map<Key, Value>, ahead: set<Key>, k: Key)
    requires Swept(old', cur, ahead) && k in ahead && IsLeast(ahead, k)
    ensures k in cur && k in old' && Swept(old', Visit(cur, k), ahead - {k})
    ensures Beyond(Visit(cur, k), k) == ahead - {k}
  {
    DoubleSinks(k);
    assert forall j :: j in old' && j !in ahead ==> Less(j, k);
    hide FixDouble, Doubled, Swept;
    if Doubled(k) {
      SweepBroken(old', cur, ahead, k);
    } else {
      SweepSound(old', cur, ahead, k);
    }
    NextAhead(old', Visit(cur, k), ahead - {k}, k);
  }

  lemma SweepEnd(old': map<Key, Value>, cur: map<Key, Value>)
    requires Swept(old', cur, {})
    ensures Rewritten(old', cur, FixDouble) && DoubledIn({}) == {}
  {
    forall k
      ensures k in cur <==> exists j :: j in old' && FixDouble(j) == k
    {
      assert k in cur ==> Source(old', {}, k);
    }
  }

  ghost function DoubledIn(keys: set<Key>): set<Key> {
    set k | k in keys && Doubled(k)
  }

  lemma DoubledLess(keys: set<Key>, k: Key)
    requires k in keys
    ensures |DoubledIn(keys - {k})| == |DoubledIn(keys)| - (if Doubled(k) then 1 else 0)
  {
    hide Doubled;
    assert DoubledIn(keys - {k}) == DoubledIn(keys) - {k};
  }

  /** A doubled key is left exactly for a tripled one. */
  lemma DoubledLeft(old': map<Key, Value>, cur: map<Key, Value>)
    requires Rewritten(old', cur, FixDouble)
    ensures (exists k :: k in cur && Doubled(k)) <==> (exists k :: k in old' && Tripled(k))
  {
    forall j
      ensures Doubled(FixDouble(j)) <==> Tripled(j)
    {
      TripledStaysDoubled(j);
    }
    hide FixDouble, Doubled, Tripled;
    if k :| k in old' && Tripled(k) {
      assert FixDouble(k) in cur && Doubled(FixDouble(k));
    }
  }
}
