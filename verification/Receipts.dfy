/** Clean-up of undeleted read receipts: over the keys in byte order, every key with the room and
    user of its predecessor is deleted. */
module Receipts {
  import opened Bytes
  import opened Codec
  import opened CodecKeys

  datatype Row = Row(room: seq<byte>, stamp: nat, user: seq<byte>)

  function KeyOf(r: Row): seq<byte> {
    Encode([Str(r.room), U64(r.stamp), Str(r.user)])
  }

  predicate SamePair(a: Row, b: Row) {
    a.room == b.room && a.user == b.user
  }

  /** The rows as the store keeps them. */
  predicate InKeyOrder(rows: seq<Row>) {
    && (forall i :: 0 <= i < |rows| ==> rows[i].stamp < TWO64)
    && (forall i, j :: 0 <= i < j < |rows| ==> Less(KeyOf(rows[i]), KeyOf(rows[j])))
  }

  /** The first row of every run of adjacent rows with equal room and user. */
  function RunHeads(rows: seq<Row>): seq<Row> {
    if |rows| <= 1 then rows
    else if SamePair(rows[|rows| - 2], rows[|rows| - 1]) then RunHeads(rows[..|rows| - 1])
    else RunHeads(rows[..|rows| - 1]) + [rows[|rows| - 1]]
  }

  lemma HeadsStep(rows: seq<Row>, t: nat)
    requires t < |rows|
    ensures RunHeads(rows[..t + 1]) == if t > 0 && SamePair(rows[t - 1], rows[t]) then RunHeads(rows[..t])
                                       else RunHeads(rows[..t]) + [rows[t]]
  {
    assert rows[..t + 1][..t] == rows[..t];
  }

  /** The table in the middle of the pass: the heads of the rows passed so far, and the rows ahead. */
  function Midway(keys: seq<Row>, t: nat): seq<Row>
    requires t <= |keys|
  {
    RunHeads(keys[..t]) + keys[t..]
  }

  /** Passing row `t` deletes it behind the heads, or leaves the table as it is. */
  lemma MidwayStep(keys: seq<Row>, t: nat)
    requires t < |keys|
    ensures var (dup, n, rows) := (t > 0 && SamePair(keys[t - 1], keys[t]), |RunHeads(keys[..t])|, Midway(keys, t));
            && n < |rows|
            && Midway(keys, t + 1) == (if dup then rows[..n] + rows[n + 1..] else rows)
            && |RunHeads(keys[..t + 1])| == (if dup then n else n + 1)
  {
    HeadsStep(keys, t);
    Cut(RunHeads(keys[..t]), keys[t], keys[t + 1..]);
    assert keys[t..] == [keys[t]] + keys[t + 1..];
  }

  lemma Cut(heads: seq<Row>, key: Row, tail: seq<Row>)
    ensures var all := heads + ([key] + tail);
            && all == (heads + [key]) + tail
            && all[..|heads|] + all[|heads| + 1..] == heads + tail
  {
  }

  lemma MidwayEnds(keys: seq<Row>)
    ensures RunHeads(keys[..0]) == [] && Midway(keys, 0) == keys && Midway(keys, |keys|) == RunHeads(keys)
    ensures |RunHeads(keys[..|keys|])| == |RunHeads(keys)|
  {
    assert keys[..0] == [] && keys[..|keys|] == keys;
  }

  class Table {
    var rows: seq<Row>

    constructor (rows: seq<Row>)
      ensures this.rows == rows
    {
      this.rows := rows;
    }

    /** `fix_readreceiptid_readreceipt_duplicates`: deletes from the table while it is iterated. */
    method CleanUp() returns (total: nat, fixed: nat)
      modifies this
      ensures rows == RunHeads(old(rows))
      ensures total == |old(rows)| && fixed + |rows| == total
    {
      hide RunHeads, Midway;
      var keys := rows;
      MidwayEnds(keys);
      var curRoom, curUser: seq<seq<byte>> := [], [];
      total, fixed := 0, 0;
      while total < |keys|
        invariant 0 <= total <= |keys| && keys == old(rows)
        invariant rows == Midway(keys, total) && fixed + |RunHeads(keys[..total])| == total
        invariant total == 0 ==> curRoom == [] && curUser == []
        invariant total > 0 ==> curRoom == [keys[total - 1].room] && curUser == [keys[total - 1].user]
      {
        var key := keys[total];
        var lastRoom, lastUser := curRoom, curUser;
        curRoom, curUser := [key.room], [key.user];
        var isDup := curRoom == lastRoom && curUser == lastUser;
        MidwayStep(keys, total);
        if isDup {
          var at := total - fixed;
          rows := rows[..at] + rows[at + 1..];
          fixed := fixed + 1;
        }
        total := total + 1;
      }
    }
  }

  // ------------------------------------------------------------ what the clean-up keeps

  lemma {:induction false} HeadsLast(rows: seq<Row>)
    requires rows != []
    ensures RunHeads(rows) != [] && SamePair(RunHeads(rows)[|RunHeads(rows)| - 1], rows[|rows| - 1])
    decreases |rows|
  {
    if |rows| > 1 {
      HeadsLast(rows[..|rows| - 1]);
    }
  }

  predicate StartsRun(rows: seq<Row>, i: nat)
    requires 0 < i < |rows|
  {
    !SamePair(rows[i - 1], rows[i])
  }

  predicate NeighboursDiffer(rows: seq<Row>) {
    forall i :: 0 < i < |rows| ==> StartsRun(rows, i)
  }

  /** No two adjacent survivors agree. */
  lemma {:induction false} HeadsDiffer(rows: seq<Row>)
    ensures NeighboursDiffer(RunHeads(rows))
    decreases |rows|
  {
    if |rows| > 1 {
      var init := rows[..|rows| - 1];
      HeadsDiffer(init);
      HeadsLast(init);
      var (g, h) := (RunHeads(init), RunHeads(rows));
      forall i | 0 < i < |h|
        ensures StartsRun(h, i)
      {
        assert i < |g| ==> StartsRun(g, i);
      }
    }
  }

  lemma {:induction false} HeadsFixed(rows: seq<Row>)
    requires NeighboursDiffer(rows)
    ensures RunHeads(rows) == rows
    decreases |rows|
  {
    if |rows| > 1 {
      var n := |rows| - 1;
      var init := rows[..n];
      forall i | 0 < i < n
        ensures StartsRun(init, i)
      {
        assert StartsRun(rows, i);
      }
      HeadsFixed(init);
      assert StartsRun(rows, n);
      assert rows == init + [rows[n]];
    }
  }

  /** A second pass deletes nothing. */
  lemma SecondPassIsIdle(rows: seq<Row>)
    ensures RunHeads(RunHeads(rows)) == RunHeads(rows)
  {
    HeadsDiffer(rows);
    HeadsFixed(RunHeads(rows));
  }

  lemma {:induction false} HeadIsRow(rows: seq<Row>, r: Row) returns (i: nat)
    requires r in RunHeads(rows)
    ensures i < |rows| && rows[i] == r
    decreases |rows|
  {
    var n := |rows| - 1;
    if rows != [] && r == rows[n] {
      i := n;
    } else if n > 0 {
      i := HeadIsRow(rows[..n], r);
    }
  }

  /** Every row has a survivor of its pair that is not behind it. */
  lemma {:induction false} HeadOfRow(rows: seq<Row>, j: nat) returns (i: nat)
    requires j < |rows|
    ensures i <= j && rows[i] in RunHeads(rows) && SamePair(rows[i], rows[j])
    decreases |rows|
  {
    var n := |rows| - 1;
    if n == 0 {
      i := 0;
    } else if j < n {
      i := HeadOfRow(rows[..n], j);
    } else if SamePair(rows[n - 1], rows[n]) {
      i := HeadOfRow(rows[..n], n - 1);
    } else {
      i := n;
    }
  }

  /** The (room, user) pairs of the table are preserved. */
  lemma PairsPreserved(rows: seq<Row>, room: seq<byte>, user: seq<byte>)
    ensures (exists r :: r in rows && r.room == room && r.user == user)
       <==> (exists r :: r in RunHeads(rows) && r.room == room && r.user == user)
  {
    if r :| r in rows && r.room == room && r.user == user {
      var j :| 0 <= j < |rows| && rows[j] == r;
      var i := HeadOfRow(rows, j);
    }
    if r :| r in RunHeads(rows) && r.room == room && r.user == user {
      var i := HeadIsRow(rows, r);
    }
  }

  lemma StampOrder(a: Row, b: Row)
    requires a.room == b.room && a.stamp < TWO64 && b.stamp < TWO64 && a.stamp != b.stamp
    ensures Less(KeyOf(a), KeyOf(b)) <==> a.stamp < b.stamp
  {
    UnsignedOrder([Str(a.room)], a.stamp, b.stamp, [Str(a.user)], [Str(b.user)]);
    assert [Str(a.room), U64(a.stamp), Str(a.user)] == [Str(a.room)] + [U64(a.stamp)] + [Str(a.user)];
    assert [Str(b.room), U64(b.stamp), Str(b.user)] == [Str(b.room)] + [U64(b.stamp)] + [Str(b.user)];
  }

  /** In a table in key order the survivor of a deleted receipt is an older one. */
  lemma OldestSurvives(rows: seq<Row>, j: nat)
    requires InKeyOrder(rows) && j < |rows| && rows[j] !in RunHeads(rows)
    ensures exists s :: s in RunHeads(rows) && SamePair(s, rows[j]) && s.stamp < rows[j].stamp
  {
    var i := HeadOfRow(rows, j);
    hide KeyOf, RunHeads;
    LessTotal(KeyOf(rows[i]), KeyOf(rows[j]));
    if rows[i].stamp != rows[j].stamp {
      StampOrder(rows[i], rows[j]);
    }
  }

  // ------------------------------------------------------------ one receipt per pair?

  /** The rows of each pair stand next to each other. */
  predicate Contiguous(rows: seq<Row>) {
    forall i, j, k :: 0 <= i < j < k < |rows| && SamePair(rows[i], rows[k]) ==> SamePair(rows[i], rows[j])
  }

  predicate OnePerPair(rows: seq<Row>) {
    forall i, j :: 0 <= i < j < |rows| ==> !SamePair(rows[i], rows[j])
  }

  lemma {:induction false} HeadsUnique(rows: seq<Row>)
    requires Contiguous(rows)
    ensures OnePerPair(RunHeads(rows))
    decreases |rows|
  {
    if |rows| > 1 {
      var n := |rows| - 1;
      HeadsUnique(rows[..n]);
      if !SamePair(rows[n - 1], rows[n]) {
        forall r | r in RunHeads(rows[..n])
          ensures !SamePair(r, rows[n])
        {
          var i := HeadIsRow(rows[..n], r);
          assert i < n - 1 ==> rows[i] == r && !SamePair(rows[i], rows[n]);
        }
      }
    }
  }

  lemma {:induction false} UniqueHeads(rows: seq<Row>, i: nat, j: nat, k: nat)
    requires OnePerPair(RunHeads(rows)) && i < j < k < |rows| && SamePair(rows[i], rows[k])
    ensures SamePair(rows[i], rows[j])
    decreases |rows|
  {
    var n := |rows| - 1;
    var init := rows[..n];
    var (h, g) := (RunHeads(init), RunHeads(rows));
    assert h <= g;
    if k < n {
      UniqueHeads(init, i, j, k);
    } else if SamePair(rows[n - 1], rows[n]) {
      if j < n - 1 {
        UniqueHeads(init, i, j, n - 1);
      }
    } else {
      assert g[|h|] == rows[n];
      var m := HeadOfRow(init, i);
    }
  }

  /** The clean-up leaves one receipt per room and user exactly when the receipts of each pair were
      adjacent to begin with. */
  lemma OneReceiptEach(rows: seq<Row>)
    ensures OnePerPair(RunHeads(rows)) <==> Contiguous(rows)
  {
    if Contiguous(rows) {
      HeadsUnique(rows);
    }
    if OnePerPair(RunHeads(rows)) {
      forall i, j, k | 0 <= i < j < k < |rows| && SamePair(rows[i], rows[k])
        ensures SamePair(rows[i], rows[j])
      {
        UniqueHeads(rows, i, j, k);
      }
    }
  }

  /** Two users taking turns keep all their receipts. */
  lemma TakingTurns()
    ensures var rows := [Row([33], 1, [64, 97]), Row([33], 2, [64, 98]), Row([33], 3, [64, 97])];
            RunHeads(rows) == rows && !OnePerPair(rows)
  {
    var rows := [Row([33], 1, [64, 97]), Row([33], 2, [64, 98]), Row([33], 3, [64, 97])];
    HeadsFixed(rows);
    assert SamePair(rows[0], rows[2]);
  }
}
