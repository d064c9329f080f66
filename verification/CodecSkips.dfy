/** The skip directives: what a caller gets who reads some components as `Ignore`, or everything from
    one place on as `IgnoreAll`. */
module CodecSkips {
  import opened Bytes
  import opened Codec
  import opened CodecTheorems
  import opened CodecAcceptance

  /** The same schema with the components marked in `skip` read as `Ignore`. */
  function MaskKinds(kinds: seq<Kind>, skip: seq<bool>): (r: seq<Kind>)
    requires |kinds| == |skip|
    ensures |r| == |kinds|
  {
    seq(|kinds|, i requires 0 <= i < |kinds| => if skip[i] then KIgnore else kinds[i])
  }

  function MaskVals(vals: seq<Val>, skip: seq<bool>): (r: seq<Val>)
    requires |vals| == |skip|
    ensures |r| == |vals|
  {
    seq(|vals|, i requires 0 <= i < |vals| => if skip[i] then Skipped else vals[i])
  }

  lemma SkipElement(debug: bool, vals: seq<Val>, k: Kind, skip: bool, buf: seq<byte>, pos: nat, rec: nat)
    requires vals != [] && HasKind(vals[0], k) && pos < |buf| && Remains(debug, buf, pos, rec, vals)
    requires Visible(vals[0]) && (|vals| > 1 ==> !HoldsRaw(vals[0]))
    requires skip ==> SEP !in Payload(vals[0])
    ensures ReadElement(debug, if skip then KIgnore else k, buf, pos, rec)
         == Ok(Read(if skip then Skipped else vals[0], RecordPos(pos, rec) + |Payload(vals[0])|))
  {
    ElementReadBack(debug, vals, k, buf, pos, rec);
    FirstRecord(debug, buf, pos, rec, vals);
    if skip {
      var p := RecordPos(pos, rec);
      NextSepFound(buf, p, p + |Payload(vals[0])|);
    }
  }

  lemma {:induction false} SkipTuple(debug: bool, vals: seq<Val>, kinds: seq<Kind>, skip: seq<bool>,
                                     buf: seq<byte>, pos: nat, rec: nat)
    requires HasKinds(vals, kinds) && |skip| == |vals| && vals != []
    requires pos < |buf| && Remains(debug, buf, pos, rec, vals) && Readable(vals)
    requires forall i :: 0 <= i < |vals| && skip[i] ==> SEP !in Payload(vals[i])
    ensures ReadTuple(debug, MaskKinds(kinds, skip), buf, pos, rec) == Ok(Reads(MaskVals(vals, skip), |buf|))
    decreases |vals|
  {
    hide HasKind, Payload, Encode, ReadElement;
    SkipElement(debug, vals, kinds[0], skip[0], buf, pos, rec);
    FirstRecord(debug, buf, pos, rec, vals);
    var q := RecordPos(pos, rec) + |Payload(vals[0])|;
    var mk, mv := MaskKinds(kinds, skip), MaskVals(vals, skip);
    assert mk[1..] == MaskKinds(kinds[1..], skip[1..]);
    assert mv == [mv[0]] + MaskVals(vals[1..], skip[1..]);
    if |vals| == 1 {
      assert ReadTuple(debug, mk[1..], buf, q, rec + 1) == Ok(Reads([], q));
    } else {
      SkipTuple(debug, vals[1..], kinds[1..], skip[1..], buf, q, rec + 1);
    }
  }

  // ---------------------------------------------------- a separator in a skipped record

  /** Skipping a record with a separator in it stops inside the record. */
  lemma StopsInside(v: Val, buf: seq<byte>, p: nat)
    requires SEP in Payload(v) && p + |Payload(v)| <= |buf| && buf[p..p + |Payload(v)|] == Payload(v)
    ensures ReadVal(true, KIgnore, buf, p).value.pos < p + |Payload(v)|
  {
    var i :| 0 <= i < |Payload(v)| && Payload(v)[i] == SEP;
    assert buf[p + i] == SEP;
    NextSepBound(buf, p, p + i);
  }

  lemma NextSepBound(buf: seq<byte>, p: nat, e: nat)
    requires p <= e < |buf| && buf[e] == SEP
    ensures NextSep(buf, p) <= e
  {
    var n := NextSep(buf, p);
    forall i | p <= i < n
      ensures buf[i] != SEP
    {
      assert buf[i] == buf[p..n][i - p];
    }
  }

  /** A reader that starts in front of the separator before `v` misses `v` or ends before its end. */
  lemma {:induction false} LateValue(v: Val, k: Kind, buf: seq<byte>, p: nat, q: nat)
    requires HasKind(v, k) && q < p && p + |Payload(v)| <= |buf| && buf[p - 1] == SEP
    requires HoldsRaw(v) ==> p + |Payload(v)| == |buf|
    ensures var r := ReadVal(true, k, buf, q);
            r.Err? || r.value.val != v || r.value.pos < p + |Payload(v)|
    decreases k
  {
    hide BigEndian, FromBigEndian, ValidUtf8, NextSep, Pow256;
    match k
    case KStr => NextSepBound(buf, q, p - 1);
    case KU64 =>
    case KI64 =>
    case KRaw => assert |buf[q..]| > |Payload(v)|;
    case KOpt(inner) =>
      if v.Just? {
        LateValue(v.inner, inner, buf, p, q);
      }
    case KIgnore =>
    case KIgnoreAll =>
  }

  /** Once behind, the reader of the masked tuple never gets to the end with the right values. */
  lemma {:induction false} StaysBehind(debug: bool, vals: seq<Val>, kinds: seq<Kind>, skip: seq<bool>,
                                       buf: seq<byte>, pos: nat, q: nat, rec: nat)
    requires HasKinds(vals, kinds) && |skip| == |vals| && vals != [] && rec > 0
    requires q < pos < |buf| && Remains(true, buf, pos, rec, vals) && Readable(vals)
    ensures ReadTuple(debug, MaskKinds(kinds, skip), buf, q, rec) != Ok(Reads(MaskVals(vals, skip), |buf|))
    decreases |vals|
  {
    hide HasKind, Payload, Encode, ReadElement, ReadVal, Visible, Remains;
    var mk, mv := MaskKinds(kinds, skip), MaskVals(vals, skip);
    if ReadTuple(debug, mk, buf, q, rec) == Ok(Reads(mv, |buf|)) {
      var _, first, rest := FirstOfTuple(debug, mk, buf, q, rec);
      BehindElement(vals, kinds[0], skip[0], buf, pos, q, rec);
      var next := pos + 1 + |Payload(vals[0])|;
      assert first.val == mv[0] && first.pos < next;
      assert mk[1..] == MaskKinds(kinds[1..], skip[1..]);
      assert mv[1..] == MaskVals(vals[1..], skip[1..]) && rest.vals == mv[1..];
      FirstRecord(true, buf, pos, rec, vals);
      if |vals| > 1 {
        StaysBehind(debug, vals[1..], kinds[1..], skip[1..], buf, next, first.pos, rec + 1);
      }
    }
  }

  lemma BehindElement(vals: seq<Val>, k: Kind, skip: bool, buf: seq<byte>, pos: nat, q: nat, rec: nat)
    requires vals != [] && HasKind(vals[0], k) && rec > 0 && q < pos < |buf|
    requires Remains(true, buf, pos, rec, vals) && (|vals| > 1 ==> !HoldsRaw(vals[0]))
    ensures var r := ReadVal(true, if skip then KIgnore else k, buf, q + 1);
            r.Err? || r.value.val != (if skip then Skipped else vals[0]) || r.value.pos < pos + 1 + |Payload(vals[0])|
  {
    FirstRecord(true, buf, pos, rec, vals);
    NextSepBound(buf, q + 1, pos);
    LateValue(vals[0], k, buf, pos + 1, q + 1);
  }

  lemma SkipFirstFails(debug: bool, vals: seq<Val>, kinds: seq<Kind>, skip: seq<bool>,
                       buf: seq<byte>, pos: nat, rec: nat)
    requires HasKinds(vals, kinds) && |skip| == |vals| && vals != []
    requires pos < |buf| && Remains(true, buf, pos, rec, vals) && Readable(vals)
    requires skip[0] && SEP in Payload(vals[0])
    ensures ReadTuple(debug, MaskKinds(kinds, skip), buf, pos, rec) != Ok(Reads(MaskVals(vals, skip), |buf|))
  {
    hide HasKind, Payload, Encode, ReadElement, ReadVal, Visible, Remains;
    var mk, mv := MaskKinds(kinds, skip), MaskVals(vals, skip);
    FirstRecord(true, buf, pos, rec, vals);
    StopsInside(vals[0], buf, RecordPos(pos, rec));
    if ReadTuple(debug, mk, buf, pos, rec) == Ok(Reads(mv, |buf|)) {
      var p, first, rest := FirstOfTuple(debug, mk, buf, pos, rec);
      assert mk[1..] == MaskKinds(kinds[1..], skip[1..]);
      assert mv[1..] == MaskVals(vals[1..], skip[1..]) && rest.vals == mv[1..];
      if |vals| > 1 {
        StaysBehind(debug, vals[1..], kinds[1..], skip[1..], buf, p + |Payload(vals[0])|, first.pos, rec + 1);
      }
    }
  }

  lemma Unchecked(debug: bool, buf: seq<byte>, pos: nat, rec: nat, vals: seq<Val>)
    requires Remains(true, buf, pos, rec, vals)
    ensures Remains(debug, buf, pos, rec, vals)
  {
  }

  lemma {:induction false} SkipTupleFails(debug: bool, vals: seq<Val>, kinds: seq<Kind>, skip: seq<bool>,
                                          buf: seq<byte>, pos: nat, rec: nat, bad: nat)
    requires HasKinds(vals, kinds) && |skip| == |vals| && bad < |vals|
    requires pos < |buf| && Remains(true, buf, pos, rec, vals) && Readable(vals)
    requires skip[bad] && SEP in Payload(vals[bad])
    ensures ReadTuple(debug, MaskKinds(kinds, skip), buf, pos, rec) != Ok(Reads(MaskVals(vals, skip), |buf|))
    decreases |vals|
  {
    hide HasKind, Payload, Encode, ReadElement, ReadVal, Visible, Remains;
    var mk, mv := MaskKinds(kinds, skip), MaskVals(vals, skip);
    if skip[0] && SEP in Payload(vals[0]) {
      SkipFirstFails(debug, vals, kinds, skip, buf, pos, rec);
    } else {
      FirstRecord(true, buf, pos, rec, vals);
      Unchecked(debug, buf, pos, rec, vals);
      SkipElement(debug, vals, kinds[0], skip[0], buf, pos, rec);
      assert mk[1..] == MaskKinds(kinds[1..], skip[1..]);
      assert mv[1..] == MaskVals(vals[1..], skip[1..]);
      var next := RecordPos(pos, rec) + |Payload(vals[0])|;
      SkipTupleFails(debug, vals[1..], kinds[1..], skip[1..], buf, next, rec + 1, bad - 1);
    }
  }

  lemma NotEmpty(vals: seq<Val>)
    requires vals != [] && Decodable(vals)
    ensures Encode(vals) != []
  {
    if |vals| > 1 {
      assert Encode(vals)[|Payload(vals[0])|] == SEP;
    }
  }

  /** Reading any choice of components as `Ignore` consumes the buffer and leaves the others as they
      are if and only if no skipped record holds a separator; only an integer or a byte slice can. */
  lemma IgnoreProjects(debug: bool, vals: seq<Val>, kinds: seq<Kind>, skip: seq<bool>)
    requires HasKinds(vals, kinds) && |skip| == |vals| && Decodable(vals)
    ensures ReadTuple(debug, MaskKinds(kinds, skip), Encode(vals), 0, 0) == Ok(Reads(MaskVals(vals, skip), |Encode(vals)|))
       <==> forall i :: 0 <= i < |vals| && skip[i] ==> SEP !in Payload(vals[i])
    ensures (forall i :: 0 <= i < |vals| && skip[i] ==> SEP !in Payload(vals[i])) ==>
              FromSlice(debug, MaskKinds(kinds, skip), Encode(vals)) == Ok(MaskVals(vals, skip))
  {
    hide HasKind, Payload, Encode, ReadElement;
    if vals != [] {
      NotEmpty(vals);
      if forall i :: 0 <= i < |vals| && skip[i] ==> SEP !in Payload(vals[i]) {
        SkipTuple(debug, vals, kinds, skip, Encode(vals), 0, 0);
      } else {
        var bad :| 0 <= bad < |vals| && skip[bad] && SEP in Payload(vals[bad]);
        SkipTupleFails(debug, vals, kinds, skip, Encode(vals), 0, 0, bad);
      }
    } else {
      assert Encode(vals) == [] by { EmptyEncoding(vals); }
    }
  }

  lemma EmptyEncoding(vals: seq<Val>)
    requires vals == []
    ensures Encode(vals) == []
  {
  }

  /** The values alone may still come out right: here a skipped integer ends in its only separator, and what is
      left over is the separator that the checked reader tolerates. */
  lemma LuckySkip(debug: bool)
    ensures var vals := [U64(255), Str([])];
            && SEP in Payload(vals[0]) && Decodable(vals)
            && FromSlice(debug, [KIgnore, KStr], Encode(vals)) == Ok([Skipped, Str([])])
  {
    var (vals, kinds) := ([U64(255), Str([])], [KIgnore, KStr]);
    var word: seq<byte> := [0, 0, 0, 0, 0, 0, 0, 255];
    assert Payload(vals[0]) == word by { SmallWord(); }
    var buf: seq<byte> := word + [SEP];
    assert vals[1..] == [Str([])];
    assert Encode(vals) == buf;
    hide BigEndian, Encode;
    assert NextSep(buf, 0) == 7 by { NextSepFound(buf, 0, 7); }
    assert NextSep(buf, 8) == 8 && buf[8..8] == [];
    assert ReadElement(debug, KIgnore, buf, 0, 0) == Ok(Read(Skipped, 7));
    assert ReadElement(debug, KStr, buf, 7, 1) == Ok(Read(Str([]), 8));
    assert kinds[1..] == [KStr] && [KStr][1..] == [];
    TupleStep(debug, kinds, buf, 0, 0);
    TupleStep(debug, [KStr], buf, 7, 1);
    EmptyTuple(debug, [KStr][1..], buf, 8, 2);
    assert [Str([])] + [] == [Str([])] && [Skipped] + [Str([])] == [Skipped, Str([])];
  }

  lemma SmallWord()
    ensures BigEndian(255, 8) == [0, 0, 0, 0, 0, 0, 0, 255]
  {
    assert BigEndian(0, 4) == [0, 0, 0, 0];
    assert BigEndian(0, 7) == [0, 0, 0, 0, 0, 0, 0];
  }

  // --------------------------------------------------------------------- skip the rest

  /** `IgnoreAll` at any place keeps the components in front of it, whatever follows. */
  lemma IgnoreAllProjects(debug: bool, vals: seq<Val>, kinds: seq<Kind>, i: nat)
    requires HasKinds(vals, kinds) && Decodable(vals) && i < |vals|
    ensures FromSlice(debug, kinds[..i] + [KIgnoreAll], Encode(vals)) == Ok(vals[..i] + [Skipped])
  {
    hide ReadTuple, Readable, Encode, Payload, HasKind, ReadElement;
    var buf := Encode(vals);
    assert buf != [] by { NotEmpty(vals); }
    TupleReadBack(debug, vals, kinds, buf, 0, 0);
    assert kinds == kinds[..i] + kinds[i..];
    TupleSplit(debug, kinds[..i], kinds[i..], buf, 0, 0);
    TupleSplit(debug, kinds[..i], [KIgnoreAll], buf, 0, 0);
    var r := ReadTuple(debug, kinds[..i], buf, 0, 0).value;
    var t := ReadTuple(debug, kinds[i..], buf, r.pos, i).value;
    assert vals == r.vals + t.vals && |r.vals| == i;
    assert vals[..i] == r.vals;
    IgnoreAllReads(debug, kinds[i..], buf, r.pos, i);
  }

  lemma IgnoreAllReads(debug: bool, kinds: seq<Kind>, buf: seq<byte>, pos: nat, rec: nat)
    requires kinds != [] && pos <= |buf| && ReadTuple(debug, kinds, buf, pos, rec).Ok?
    ensures ReadTuple(debug, [KIgnoreAll], buf, pos, rec) == Ok(Reads([Skipped], |buf|))
  {
    var p, first, rest := FirstOfTuple(debug, kinds, buf, pos, rec);
    TupleStep(debug, [KIgnoreAll], buf, pos, rec);
    assert [KIgnoreAll][1..] == [];
    EmptyTuple(debug, [KIgnoreAll][1..], buf, |buf|, rec + 1);
    assert [Skipped] + [] == [Skipped];
  }
}
