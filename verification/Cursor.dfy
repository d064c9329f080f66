/** The cursor wrapper around the store's raw iterator, and the prefix streams built on it. The
    iterator contract is: a strictly sorted table and a position that is valid or not. */
module Cursor {
  import opened Bytes
  import opened Codec
  import opened CodecKeys
  import opened Sequences

  type Key = seq<byte>

  datatype Entry = Entry(key: Key, value: seq<byte>)

  predicate Sorted(table: seq<Entry>) {
    forall i, j :: 0 <= i < j < |table| ==> Less(table[i].key, table[j].key)
  }

  /** The entries whose key satisfies `p`, in table order: the reference for every stream. */
  function Select(table: seq<Entry>, p: Key -> bool): seq<Entry> {
    if table == [] then []
    else (if p(table[0].key) then [table[0]] else []) + Select(table[1..], p)
  }

  function AtLeast(from: Key): Key -> bool { k => Leq(from, k) }
  function AtMost(from: Key): Key -> bool { k => Leq(k, from) }
  function StartsWith(prefix: Key): Key -> bool { k => prefix <= k }
  function Equals(key: Key): Key -> bool { k => k == key }

  /** Exactly the entries from `lo` to `hi` satisfy `p`. */
  ghost predicate Exactly(table: seq<Entry>, p: Key -> bool, lo: nat, hi: nat) {
    lo <= hi <= |table| && forall i :: 0 <= i < |table| ==> (p(table[i].key) <==> lo <= i < hi)
  }

  lemma ExactlyTail(table: seq<Entry>, p: Key -> bool, lo: nat, hi: nat)
    requires table != [] && Exactly(table, p, lo, hi)
    ensures p(table[0].key) <==> lo == 0 && hi > 0
    ensures Exactly(table[1..], p, if lo > 0 then lo - 1 else 0, if hi > 0 then hi - 1 else 0)
  {
    var tail := table[1..];
    assert forall i :: 0 <= i < |tail| ==> tail[i] == table[i + 1];
  }

  lemma {:induction false} SelectSlice(table: seq<Entry>, p: Key -> bool, lo: nat, hi: nat)
    requires Exactly(table, p, lo, hi)
    ensures lo <= hi <= |table| && Select(table, p) == table[lo..hi]
    decreases |table|
  {
    assert lo <= hi <= |table|;
    if table != [] {
      hide Exactly;
      ExactlyTail(table, p, lo, hi);
      SelectSlice(table[1..], p, if lo > 0 then lo - 1 else 0, if hi > 0 then hi - 1 else 0);
      if lo == 0 && hi > 0 {
        assert table[0..hi] == [table[0]] + table[1..][0..hi - 1];
      }
    }
  }

  /** The entries from position `i` on. */
  function Rest(table: seq<Entry>, i: nat): seq<Entry>
    requires i <= |table|
  {
    table[i..]
  }

  lemma RestStep(table: seq<Entry>, i: nat)
    requires i < |table|
    ensures Rest(table, i) == [table[i]] + Rest(table, i + 1)
  {
  }

  lemma RestEnds(table: seq<Entry>)
    ensures Rest(table, 0) == table && Rest(table, |table|) == []
  {
  }

  // ------------------------------------------------------------------------- the cursor

  class State {
    const table: seq<Entry>
    var at: int
    var seek: bool
    var init: bool

    ghost predicate Ok()
      reads this
    {
      Sorted(table) && -1 <= at < |table|
    }

    /** What repeated `seek_and_get` will yield, forwards. */
    ghost function Ahead(): seq<Entry>
      requires Ok()
      reads this
    {
      if init && !seek then table
      else if at == -1 then []
      else if init then Rest(table, at) else Rest(table, at + 1)
    }

    /** What repeated `seek_and_get` will yield, backwards. */
    ghost function Behind(): seq<Entry>
      requires Ok()
      reads this
    {
      if init && !seek then Reverse(table)
      else if at == -1 then []
      else if init then Reverse(table[..at + 1]) else Reverse(table[..at])
    }

    constructor (table: seq<Entry>)
      requires Sorted(table)
      ensures Ok() && init && !seek && this.table == table
    {
      this.table, at, seek, init := table, -1, false, true;
    }

    method InitFwd(from: Option<Key>)
      requires Ok() && init && !seek
      modifies this
      ensures Ok() && init && seek
      ensures Ahead() == if from.None? then table else Select(table, AtLeast(from.value))
    {
      var i := 0;
      if from.Some? {
        while i < |table| && Less(table[i].key, from.value)
          invariant 0 <= i <= |table|
          invariant forall j :: 0 <= j < i ==> Less(table[j].key, from.value)
        {
          i := i + 1;
        }
        SplitFwd(table, from.value, i);
      }
      at := if i < |table| then i else -1;
      seek := true;
    }

    method InitRev(from: Option<Key>)
      requires Ok() && init && !seek
      modifies this
      ensures Ok() && init && seek
      ensures Behind() == Reverse(if from.None? then table else Select(table, AtMost(from.value)))
    {
      var i := |table|;
      if from.Some? {
        while i > 0 && Less(from.value, table[i - 1].key)
          invariant 0 <= i <= |table|
          invariant forall j :: i <= j < |table| ==> Less(from.value, table[j].key)
        {
          i := i - 1;
        }
        SplitRev(table, from.value, i);
      }
      assert table[..|table|] == table;
      at := i - 1;
      seek := true;
    }

    method SeekFwd()
      requires Ok()
      modifies this
      ensures Ok() && !init && seek == old(seek)
      ensures (at == -1 <==> old(Ahead()) == []) && (at != -1 ==> old(Ahead()) == [table[at]] + Ahead())
      ensures at == -1 ==> Ahead() == []
    {
      hide Sorted, Rest;
      RestEnds(table);
      var first := init;
      init := false;
      if !first {
        at := if at == -1 || at + 1 == |table| then -1 else at + 1;
      } else if !seek {
        at := if table == [] then -1 else 0;
      }
      if at != -1 {
        RestStep(table, at);
      }
    }

    method SeekRev()
      requires Ok()
      modifies this
      ensures Ok() && !init && seek == old(seek)
      ensures (at == -1 <==> old(Behind()) == []) && (at != -1 ==> old(Behind()) == [table[at]] + Behind())
      ensures at == -1 ==> Behind() == []
    {
      var first := init;
      init := false;
      if !first {
        at := if at == -1 then -1 else at - 1;
      } else if !seek {
        at := |table| - 1;
        assert table[..|table|] == table;
      }
      if at != -1 {
        assert table[..at + 1] == table[..at] + [table[at]];
        ReverseSnoc(table[..at], table[at]);
      }
    }

    function Get(): (e: Option<Entry>)
      requires Ok()
      reads this
      ensures e.None? <==> at == -1
    {
      if at == -1 then None else Some(table[at])
    }

    method SeekAndGet() returns (e: Option<Entry>)
      requires Ok()
      modifies this
      ensures Ok() && (e.None? <==> old(Ahead()) == [])
      ensures e.None? ==> Ahead() == []
      ensures e.Some? ==> old(Ahead()) == [e.value] + Ahead()
    {
      SeekFwd();
      e := Get();
    }

    method SeekAndGetRev() returns (e: Option<Entry>)
      requires Ok()
      modifies this
      ensures Ok() && (e.None? <==> old(Behind()) == [])
      ensures e.None? ==> Behind() == []
      ensures e.Some? ==> old(Behind()) == [e.value] + Behind()
    {
      SeekRev();
      e := Get();
    }
  }

  lemma SplitFwd(table: seq<Entry>, from: Key, i: nat)
    requires Sorted(table) && i <= |table|
    requires forall j :: 0 <= j < i ==> Less(table[j].key, from)
    requires i < |table| ==> !Less(table[i].key, from)
    ensures Select(table, AtLeast(from)) == table[i..]
  {
    forall j | 0 <= j < |table|
      ensures Leq(from, table[j].key) <==> i <= j
    {
      LessTotal(table[j].key, from);
      if i < j {
        LessTotal(table[i].key, from);
        Below(from, table[i].key, table[j].key);
      }
    }
    SelectSlice(table, AtLeast(from), i, |table|);
  }

  lemma SplitRev(table: seq<Entry>, from: Key, i: nat)
    requires Sorted(table) && i <= |table|
    requires forall j :: i <= j < |table| ==> Less(from, table[j].key)
    requires i > 0 ==> !Less(from, table[i - 1].key)
    ensures Select(table, AtMost(from)) == table[..i]
  {
    forall j | 0 <= j < |table|
      ensures Leq(table[j].key, from) <==> j < i
    {
      LessTotal(table[j].key, from);
      if j < i - 1 {
        LessTotal(table[i - 1].key, from);
        Below(table[j].key, table[i - 1].key, from);
      }
    }
    SelectSlice(table, AtMost(from), 0, i);
  }

  lemma Below(a: Key, b: Key, c: Key)
    ensures Leq(a, b) && Less(b, c) ==> Less(a, c)
    ensures Less(a, b) && Leq(b, c) ==> Less(a, c)
  {
    if Less(a, b) && Less(b, c) {
      LessTransitive(a, b, c);
    }
  }

  // ----------------------------------------------------------------------- the streams

  lemma Shift(out: seq<Entry>, left: seq<Entry>, rest: seq<Entry>, e: Entry)
    requires left == [e] + rest
    ensures out + left == (out + [e]) + rest && |rest| < |left|
  {
  }

  /** Polls a forward stream until it ends. */
  method Collect(s: State) returns (out: seq<Entry>)
    requires s.Ok()
    modifies s
    ensures s.Ok() && out == old(s.Ahead()) && s.Ahead() == []
  {
    hide State.Ahead, State.Ok;
    ghost var all := s.Ahead();
    out := [];
    while true
      invariant s.Ok() && all == out + s.Ahead()
      decreases |s.Ahead()|
    {
      ghost var left := s.Ahead();
      var e := s.SeekAndGet();
      if e.None? {
        break;
      }
      Shift(out, left, s.Ahead(), e.value);
      out := out + [e.value];
    }
  }

  method CollectRev(s: State) returns (out: seq<Entry>)
    requires s.Ok()
    modifies s
    ensures s.Ok() && out == old(s.Behind()) && s.Behind() == []
  {
    hide State.Behind, State.Ok;
    ghost var all := s.Behind();
    out := [];
    while true
      invariant s.Ok() && all == out + s.Behind()
      decreases |s.Behind()|
    {
      ghost var left := s.Behind();
      var e := s.SeekAndGetRev();
      if e.None? {
        break;
      }
      Shift(out, left, s.Behind(), e.value);
      out := out + [e.value];
    }
  }

  /** A stream from a key, or from the start; without a key it may start lazily, with no `init_fwd`. */
  method StreamFrom(table: seq<Entry>, from: Option<Key>, lazy: bool) returns (out: seq<Entry>)
    requires Sorted(table)
    ensures out == if from.None? then table else Select(table, AtLeast(from.value))
  {
    var s := new State(table);
    if from.Some? || !lazy {
      s.InitFwd(from);
    }
    out := Collect(s);
  }

  method RevStreamFrom(table: seq<Entry>, from: Option<Key>, lazy: bool) returns (out: seq<Entry>)
    requires Sorted(table)
    ensures out == Reverse(if from.None? then table else Select(table, AtMost(from.value)))
  {
    var s := new State(table);
    if from.Some? || !lazy {
      s.InitRev(from);
    }
    out := CollectRev(s);
  }

  /** The longest prefix of a stream that satisfies `p`. */
  function TakeWhile(items: seq<Entry>, p: Key -> bool): seq<Entry> {
    if items == [] || !p(items[0].key) then [] else [items[0]] + TakeWhile(items[1..], p)
  }

  lemma {:induction false} TakeWhileSlice(items: seq<Entry>, p: Key -> bool, n: nat)
    requires n <= |items| && (forall i :: 0 <= i < n ==> p(items[i].key)) && (n < |items| ==> !p(items[n].key))
    ensures TakeWhile(items, p) == items[..n]
  {
    if n > 0 {
      TakeWhileSlice(items[1..], p, n - 1);
    }
  }

  /** `raw_stream_prefix` yields exactly the entries whose key starts with the prefix, in order. */
  lemma PrefixStream(table: seq<Entry>, prefix: Key)
    requires Sorted(table)
    ensures TakeWhile(Select(table, AtLeast(prefix)), StartsWith(prefix)) == Select(table, StartsWith(prefix))
  {
    hide Less, Leq, Select, Sorted, TakeWhile;
    var lo := Boundary(table, prefix);
    SplitFwd(table, prefix, lo);
    var hi := PrefixEnd(table, prefix, lo);
    forall i | 0 <= i < lo
      ensures !(prefix <= table[i].key)
    {
      NotBelow(prefix, table[i].key);
    }
    SelectSlice(table, StartsWith(prefix), lo, hi);
    var items := table[lo..];
    assert forall i :: 0 <= i < |items| ==> items[i] == table[lo + i];
    assert forall i :: 0 <= i < |items| ==> (prefix <= items[i].key <==> i < hi - lo);
    TakeWhileSlice(items, StartsWith(prefix), hi - lo);
    assert items[..hi - lo] == table[lo..hi];
  }

  /** A key in front of the prefix does not start with it. */
  lemma NotBelow(prefix: Key, k: Key)
    requires Less(k, prefix)
    ensures !(prefix <= k)
  {
    LessTotal(prefix, k);
    if prefix <= k {
      PrefixLeq(prefix, k);
    }
  }

  /** The first position that does not sort before `from`. */
  lemma Boundary(table: seq<Entry>, from: Key) returns (i: nat)
    ensures i <= |table| && (forall j :: 0 <= j < i ==> Less(table[j].key, from))
    ensures i < |table| ==> !Less(table[i].key, from)
  {
    i := 0;
    while i < |table| && Less(table[i].key, from)
      invariant i <= |table| && forall j :: 0 <= j < i ==> Less(table[j].key, from)
    {
      i := i + 1;
    }
  }

  /** Behind the first entry that lacks the prefix, no entry has it. */
  lemma PrefixEnd(table: seq<Entry>, prefix: Key, lo: nat) returns (hi: nat)
    requires Sorted(table) && lo <= |table| && (lo < |table| ==> !Less(table[lo].key, prefix))
    ensures lo <= hi <= |table| && (forall i :: lo <= i < |table| ==> (prefix <= table[i].key <==> i < hi))
  {
    hi := lo;
    while hi < |table| && prefix <= table[hi].key
      invariant lo <= hi <= |table| && forall i :: lo <= i < hi ==> prefix <= table[i].key
    {
      hi := hi + 1;
    }
    forall i | hi <= i < |table|
      ensures !(prefix <= table[i].key)
    {
      if prefix <= table[i].key {
        LessTotal(table[lo].key, prefix);
        Below(prefix, table[lo].key, table[hi].key);
        PrefixInterval(prefix, prefix, table[hi].key, table[i].key);
        assert false;
      }
    }
  }

  /** `rev_raw_stream_prefix` seeks to the last key at or before the prefix, so it yields the entry
      stored under the prefix itself and none of the longer keys. */
  lemma RevPrefixStream(table: seq<Entry>, prefix: Key)
    requires Sorted(table)
    ensures TakeWhile(Reverse(Select(table, AtMost(prefix))), StartsWith(prefix))
         == Select(table, Equals(prefix))
    ensures |Select(table, Equals(prefix))| <= 1
  {
    var lo := Boundary(table, prefix);
    var hi := if lo < |table| && table[lo].key == prefix then lo + 1 else lo;
    forall j | 0 <= j < |table|
      ensures j < hi <==> Leq(table[j].key, prefix)
      ensures table[j].key == prefix <==> lo <= j < hi
      ensures j < lo ==> !(prefix <= table[j].key)
    {
      AroundPrefix(table, prefix, lo, j);
    }
    hide Less, Leq, Select;
    SelectSlice(table, AtMost(prefix), 0, hi);
    SelectSlice(table, Equals(prefix), lo, hi);
    TakeFromEnd(table, prefix, lo, hi);
  }

  lemma {:induction false} SelectMember(table: seq<Entry>, p: Key -> bool, e: Entry)
    ensures e in Select(table, p) <==> e in table && p(e.key)
  {
    if table != [] {
      SelectMember(table[1..], p, e);
      assert e in table <==> e == table[0] || e in table[1..];
    }
  }

  lemma {:induction false} SelectAgree(table: seq<Entry>, p: Key -> bool, q: Key -> bool)
    requires forall j :: 0 <= j < |table| ==> (p(table[j].key) <==> q(table[j].key))
    ensures Select(table, p) == Select(table, q)
  {
    if table != [] {
      SelectAgree(table[1..], p, q);
    }
  }

  /** A reverse prefix stream yields the rows of the prefix in reverse order if and only if no key is a proper
      extension of the prefix. */
  lemma RevPrefixExactly(table: seq<Entry>, prefix: Key)
    requires Sorted(table)
    ensures TakeWhile(Reverse(Select(table, AtMost(prefix))), StartsWith(prefix)) == Reverse(Select(table, StartsWith(prefix)))
       <==> forall j :: 0 <= j < |table| && prefix <= table[j].key ==> table[j].key == prefix
  {
    hide Select, Sorted, TakeWhile;
    RevPrefixStream(table, prefix);
    var (one, all) := (Select(table, Equals(prefix)), Select(table, StartsWith(prefix)));
    if forall j :: 0 <= j < |table| && prefix <= table[j].key ==> table[j].key == prefix {
      SelectAgree(table, Equals(prefix), StartsWith(prefix));
      assert Reverse(one) == one;
    } else {
      var j :| 0 <= j < |table| && prefix <= table[j].key && table[j].key != prefix;
      SelectMember(table, StartsWith(prefix), table[j]);
      SelectMember(table, Equals(prefix), table[j]);
      ReverseMembers(all);
    }
  }

  /** For example, two rows behind a prefix are both missed. */
  lemma RevPrefixMisses(prefix: Key)
    ensures var table := [Entry(prefix + [97], []), Entry(prefix + [98], [])];
            && Sorted(table) && Select(table, StartsWith(prefix)) == table
            && TakeWhile(Reverse(Select(table, AtMost(prefix))), StartsWith(prefix)) == []
  {
    var table := [Entry(prefix + [97], []), Entry(prefix + [98], [])];
    LessUnderPrefix(prefix, [97], [98]);
    assert Sorted(table);
    RevPrefixStream(table, prefix);
    assert table[1..] == [table[1]] && [table[1]][1..] == [];
    assert table[0].key != prefix && table[1].key != prefix;
    SelectSlice(table, StartsWith(prefix), 0, 2);
    SelectSlice(table, Equals(prefix), 0, 0);
  }

  /** Backwards from `hi`, only the entry at `lo` can still have the prefix. */
  lemma TakeFromEnd(table: seq<Entry>, prefix: Key, lo: nat, hi: nat)
    requires lo <= hi <= lo + 1 && hi <= |table|
    requires forall j :: 0 <= j < hi ==> (prefix <= table[j].key <==> lo <= j)
    ensures TakeWhile(Reverse(table[0..hi]), StartsWith(prefix)) == table[lo..hi]
  {
    var items := Reverse(table[0..hi]);
    TakeWhileSlice(items, StartsWith(prefix), hi - lo);
    assert items[..hi - lo] == table[lo..hi];
  }

  lemma AroundPrefix(table: seq<Entry>, prefix: Key, lo: nat, j: nat)
    requires Sorted(table) && lo <= |table| && j < |table|
    requires forall i :: 0 <= i < lo ==> Less(table[i].key, prefix)
    requires lo < |table| ==> !Less(table[lo].key, prefix)
    ensures Leq(table[j].key, prefix) <==> j < lo || (j == lo && table[lo].key == prefix)
    ensures table[j].key == prefix <==> j == lo && table[lo].key == prefix
    ensures j < lo ==> !(prefix <= table[j].key)
  {
    LessTotal(table[j].key, prefix);
    if j < lo && prefix <= table[j].key {
      PrefixLeq(prefix, table[j].key);
    }
    if lo < j {
      LessTotal(table[lo].key, prefix);
      Below(prefix, table[lo].key, table[j].key);
    }
  }

  method StreamPrefix(table: seq<Entry>, prefix: Key) returns (out: seq<Entry>)
    requires Sorted(table)
    ensures out == Select(table, StartsWith(prefix))
  {
    var items := StreamFrom(table, Some(prefix), false);
    out := TakeWhile(items, StartsWith(prefix));
    PrefixStream(table, prefix);
  }

  method RevStreamPrefix(table: seq<Entry>, prefix: Key) returns (out: seq<Entry>)
    requires Sorted(table)
    ensures out == Select(table, Equals(prefix))
  {
    var items := RevStreamFrom(table, Some(prefix), false);
    out := TakeWhile(items, StartsWith(prefix));
    RevPrefixStream(table, prefix);
  }

  // ------------------------------------------------------------------------ typed rows

  /** The entry holds the encoding of `row`, whose first `n` components can be told apart. */
  predicate Holds(e: Entry, row: seq<Val>, kinds: seq<Kind>, n: nat) {
    e.key == Encode(row) && HasKinds(row, kinds) && n < |kinds| && KeyParts(row[..n])
  }

  /** Streaming the prefix key of some leading components over a table of encoded rows yields
      exactly the rows that begin with these components. */
  lemma PrefixStreamRows(table: seq<Entry>, rows: seq<seq<Val>>, kinds: seq<Kind>, pre: seq<Val>, i: nat)
    requires Sorted(table) && |rows| == |table| && i < |table|
    requires |pre| < |kinds| && HasKinds(pre, kinds[..|pre|]) && KeyParts(pre)
    requires forall j :: 0 <= j < |rows| ==> Holds(table[j], rows[j], kinds, |pre|)
    ensures var out := TakeWhile(Select(table, AtLeast(PrefixKey(pre))), StartsWith(PrefixKey(pre)));
            |pre| < |rows[i]| && (table[i] in out <==> rows[i][..|pre|] == pre)
  {
    hide Encode, PrefixKey, HasKind, KeyPart;
    var p := PrefixKey(pre);
    assert Holds(table[i], rows[i], kinds, |pre|);
    PrefixStream(table, p);
    SelectMember(table, StartsWith(p), table[i]);
    PrefixSelects(pre, rows[i], kinds);
  }
}
