/** How encoded tuples behave as keys: prefix selection, contiguous groups and numeric order. */
module CodecKeys {
  import opened Bytes
  import opened Codec
  import opened CodecTheorems

  /** A component that can be told apart from the ones that follow it. */
  predicate KeyPart(v: Val) {
    Visible(v) && !HoldsRaw(v)
  }

  predicate KeyParts(vals: seq<Val>) {
    forall i :: 0 <= i < |vals| ==> KeyPart(vals[i])
  }

  // ------------------------------------------------------------- prefix selection

  /** Self-delimiting records: at one place of a buffer only one of them can stand. */
  lemma UniqueRecord(a: Val, b: Val, k: Kind, buf: seq<byte>, pos: nat)
    requires HasKind(a, k) && HasKind(b, k) && KeyPart(a) && KeyPart(b) && pos <= |buf|
    requires Delimited(buf, pos, a) && Delimited(buf, pos, b)
    ensures a == b
  {
    RecordReadBack(a, k, buf, pos);
    RecordReadBack(b, k, buf, pos);
  }

  lemma {:induction false} PrefixDetermines(pre: seq<Val>, row: seq<Val>, kinds: seq<Kind>)
    requires |pre| < |row| && HasKinds(row, kinds) && HasKinds(pre, kinds[..|pre|])
    requires KeyParts(pre) && KeyParts(row[..|pre|])
    requires PrefixKey(pre) <= Encode(row)
    ensures pre == row[..|pre|]
    decreases |pre|
  {
    if pre != [] {
      hide HasKind, Payload, KeyPart;
      var buf, w, x := Encode(row), Payload(pre[0]), Payload(row[0]);
      assert (pre + [Interfix])[1..] == pre[1..] + [Interfix];
      assert PrefixKey(pre) == w + [SEP] + PrefixKey(pre[1..]);
      assert buf == x + [SEP] + Encode(row[1..]);
      assert buf[..|w| + 1] == w + [SEP];
      assert row[..|pre|][0] == row[0];
      assert buf[0..|w|] == w && buf[|w|] == SEP && buf[0..|x|] == x && buf[|x|] == SEP;
      UniqueRecord(pre[0], row[0], kinds[0], buf, 0);
      assert PrefixKey(pre[1..]) == PrefixKey(pre)[|w| + 1..] <= buf[|w| + 1..] == Encode(row[1..]);
      assert row[1..][..|pre| - 1] == row[..|pre|][1..];
      assert kinds[1..][..|pre| - 1] == kinds[..|pre|][1..];
      PrefixDetermines(pre[1..], row[1..], kinds[1..]);
      assert pre == [pre[0]] + pre[1..];
      assert row[..|pre|] == [row[0]] + row[1..][..|pre| - 1];
    }
  }

  lemma PrefixCovers(pre: seq<Val>, row: seq<Val>)
    requires |pre| < |row| && pre == row[..|pre|]
    ensures PrefixKey(pre) <= Encode(row)
  {
    PrefixKeyBytes(pre);
    if pre != [] {
      assert row == pre + row[|pre|..];
      EncodeAppend(pre, row[|pre|..]);
    }
  }

  /** A prefix key selects exactly the rows whose leading components are equal to it. */
  lemma PrefixSelects(pre: seq<Val>, row: seq<Val>, kinds: seq<Kind>)
    requires |pre| < |row| && HasKinds(row, kinds) && HasKinds(pre, kinds[..|pre|])
    requires KeyParts(pre) && KeyParts(row[..|pre|])
    ensures PrefixKey(pre) <= Encode(row) <==> pre == row[..|pre|]
  {
    if PrefixKey(pre) <= Encode(row) {
      PrefixDetermines(pre, row, kinds);
    }
    if pre == row[..|pre|] {
      PrefixCovers(pre, row);
    }
  }

  // --------------------------------------------------------------------- key order

  /** Rows that share their leading components are contiguous: what sorts between two of them
      shares the components too. */
  lemma GroupIsContiguous(pre: seq<Val>, x: seq<Val>, y: seq<Val>, z: seq<Val>, kinds: seq<Kind>)
    requires |pre| < |kinds| && HasKinds(pre, kinds[..|pre|]) && KeyParts(pre)
    requires HasKinds(y, kinds) && KeyParts(y[..|pre|])
    requires |x| == |z| == |kinds| && x[..|pre|] == pre && z[..|pre|] == pre
    requires Leq(Encode(x), Encode(y)) && Leq(Encode(y), Encode(z))
    ensures y[..|pre|] == pre
  {
    PrefixCovers(pre, x);
    PrefixCovers(pre, z);
    PrefixInterval(PrefixKey(pre), Encode(x), Encode(y), Encode(z));
    PrefixSelects(pre, y, kinds);
  }

  /** What follows a component: nothing, or a separator and the other components. */
  function Behind(tail: seq<Val>): seq<byte> {
    if tail == [] then [] else [SEP] + Encode(tail)
  }

  lemma SplitRow(pre: seq<Val>, v: Val, tail: seq<Val>)
    ensures Encode(pre + [v] + tail) == PrefixKey(pre) + (Payload(v) + Behind(tail))
  {
    hide Encode, Payload, PrefixKey;
    PrefixKeyBytes(pre);
    EncodeSnoc(pre, v);
    if tail == [] {
      assert pre + [v] + tail == pre + [v];
    } else {
      EncodeAppend(pre + [v], tail);
    }
  }

  lemma WordOrder(pre: seq<Val>, a: Val, b: Val, m: nat, n: nat, s: seq<Val>, t: seq<Val>)
    requires m < n < TWO64 && Payload(a) == BigEndian(m, 8) && Payload(b) == BigEndian(n, 8)
    ensures Less(Encode(pre + [a] + s), Encode(pre + [b] + t))
  {
    WordRange();
    SplitRow(pre, a, s);
    SplitRow(pre, b, t);
    BigEndianOrder(m, n, 8, Behind(s), Behind(t));
    LessUnderPrefix(PrefixKey(pre), Payload(a) + Behind(s), Payload(b) + Behind(t));
  }

  /** Below equal leading components, keys sort by their next u64, whatever follows it. */
  lemma UnsignedOrder(pre: seq<Val>, m: nat, n: nat, s: seq<Val>, t: seq<Val>)
    requires m < TWO64 && n < TWO64 && m != n
    ensures Less(Encode(pre + [U64(m)] + s), Encode(pre + [U64(n)] + t)) <==> m < n
  {
    if m < n {
      WordOrder(pre, U64(m), U64(n), m, n, s, t);
    } else {
      WordOrder(pre, U64(n), U64(m), n, m, t, s);
      LessTotal(Encode(pre + [U64(m)] + s), Encode(pre + [U64(n)] + t));
    }
  }

  /** Signed keys sort numerically exactly when the two signs agree: negatives sort last. */
  lemma SignedOrder(pre: seq<Val>, i: int, j: int, s: seq<Val>, t: seq<Val>)
    requires -TWO63 <= i < j < TWO63
    ensures Less(Encode(pre + [I64(i)] + s), Encode(pre + [I64(j)] + t)) <==> (i < 0 <==> j < 0)
  {
    var (m, n) := (i % TWO64, j % TWO64);
    if (i < 0) == (j < 0) {
      assert m < n;
      WordOrder(pre, I64(i), I64(j), m, n, s, t);
    } else {
      assert n < m;
      WordOrder(pre, I64(j), I64(i), n, m, t, s);
      LessTotal(Encode(pre + [I64(i)] + s), Encode(pre + [I64(j)] + t));
    }
  }
}
